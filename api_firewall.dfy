/** `apps/api/src/firewall/iptables-firewall.service.ts` and
    `apps/api/src/firewall/firewall-cleanup.service.ts`: the API's iptables
    firewall, which keeps the list of addresses it has rejected and issues
    one iptables command per change, and the cleanup service, which tracks
    the denied addresses from the firewall events and allows each of them
    again when the application shuts down. Commands are recorded as the
    text handed to the shell; their failures are logged and swallowed, so
    the lists change whatever the shell answers. */
module ApiFirewall {
  import opened Wrappers
  import opened ApiTypes

  const CHAIN: string := "banalize"
  const DEFAULT_LINK: string := "INPUT"

  /** What follows the address in the reject rule. */
  const RULE_TAIL: string := "/32 -j REJECT --reject-with icmp-port-unreachable"

  function DenyCommand(ip: string): string
  {
    "iptables -A " + CHAIN + " -s " + ip + RULE_TAIL
  }

  function AllowCommand(ip: string): string
  {
    "iptables -D " + CHAIN + " -s " + ip + RULE_TAIL
  }

  /** `onModuleInit`: create the chain, link it, flush it. */
  function InitCommands(link: string): seq<string>
  {
    ["iptables -N " + CHAIN, "iptables -I " + link + " -j " + CHAIN, "iptables -F " + CHAIN]
  }

  /** `onModuleDestroy`: flush the chain, unlink it, delete it. */
  function DestroyCommands(link: string): seq<string>
  {
    ["iptables -F " + CHAIN, "iptables -D " + link + " -j " + CHAIN, "iptables -X " + CHAIN]
  }

  predicate NoDuplicates(s: seq<string>)
  {
    forall i, j :: 0 <= i < j < |s| ==> s[i] != s[j]
  }

  /** `filter((x) => x !== ip)`: every copy of `ip` removed, the rest in
      order. */
  function Without(s: seq<string>, ip: string): (r: seq<string>)
    ensures forall x :: x in r <==> x in s && x != ip
    ensures |r| <= |s|
    ensures NoDuplicates(s) ==> NoDuplicates(r)
  {
    if |s| == 0 then []
    else
      var rest := Without(s[1..], ip);
      assert NoDuplicates(s) ==> s[0] !in s[1..] && NoDuplicates(s[1..]) by {
        if NoDuplicates(s) {
          forall k | 0 <= k < |s| - 1
            ensures s[1..][k] != s[0]
          {
            assert s[1..][k] == s[k + 1];
          }
        }
      }
      (if s[0] == ip then [] else [s[0]]) + rest
  }

  /** The list after a deny: the address appended unless already there. */
  function AfterDeny(s: seq<string>, ip: string): seq<string>
  {
    if ip in s then s else s + [ip]
  }

  /** Removing an address that is not there changes nothing. */
  lemma {:induction false} WithoutAbsent(s: seq<string>, ip: string)
    requires ip !in s
    ensures Without(s, ip) == s
  {
    if |s| > 0 {
      WithoutAbsent(s[1..], ip);
      assert s == [s[0]] + s[1..];
    }
  }

  /** Removing distributes over concatenation. */
  lemma {:induction false} WithoutAppend(s: seq<string>, t: seq<string>, ip: string)
    ensures Without(s + t, ip) == Without(s, ip) + Without(t, ip)
  {
    if |s| > 0 {
      assert (s + t)[1..] == s[1..] + t;
      WithoutAppend(s[1..], t, ip);
    } else {
      assert s + t == t;
    }
  }

  /** Allowing an address that a deny has just added gives the list back. */
  lemma DenyThenAllow(s: seq<string>, ip: string)
    requires ip !in s
    ensures Without(AfterDeny(s, ip), ip) == s
  {
    WithoutAppend(s, [ip], ip);
    WithoutAbsent(s, ip);
    assert Without([ip], ip) == [] + Without([], ip);
  }

  /** A deny command and an allow command never coincide, and each names
      one address only. */
  lemma CommandsDistinct(a: string, b: string)
    ensures DenyCommand(a) != AllowCommand(b)
    ensures DenyCommand(a) == DenyCommand(b) ==> a == b
    ensures AllowCommand(a) == AllowCommand(b) ==> a == b
  {
    assert DenyCommand(a)[10] == 'A' && AllowCommand(b)[10] == 'D';
    if DenyCommand(a) == DenyCommand(b) {
      Unframe("iptables -A " + CHAIN + " -s ", a, b, RULE_TAIL);
    }
    if AllowCommand(a) == AllowCommand(b) {
      Unframe("iptables -D " + CHAIN + " -s ", a, b, RULE_TAIL);
    }
  }

  /** Equal texts around a fixed head and tail hold equal middles. */
  lemma Unframe(head: string, a: string, b: string, tail: string)
    requires head + a + tail == head + b + tail
    ensures a == b
  {
    var s := head + a + tail;
    assert |a| == |b|;
    assert a == s[|head|..|head| + |a|];
    assert b == (head + b + tail)[|head|..|head| + |b|];
  }

  class IptablesFirewallService {
    /** The chain `banalize` is linked from (`BANALIZE_API_FIREWALL_CHAIN`,
        by default `INPUT`). */
    const link: string
    const bus: EventBus
    var bannedIps: seq<string>
    var commands: seq<string>

    ghost predicate Valid()
      reads this
    {
      NoDuplicates(bannedIps)
    }

    constructor (linkEnv: Option<string>, bus: EventBus)
      ensures Valid() && bannedIps == [] && commands == [] && this.bus == bus
      ensures link == (if linkEnv.Some? then linkEnv.value else DEFAULT_LINK)
    {
      link := if linkEnv.Some? then linkEnv.value else DEFAULT_LINK;
      this.bus := bus;
      bannedIps := [];
      commands := [];
    }

    method OnModuleInit()
      modifies this, bus
      ensures bannedIps == old(bannedIps)
      ensures commands == old(commands) + InitCommands(link)
      ensures bus.emitted == old(bus.emitted) + [FirewallReady]
    {
      commands := commands + ["iptables -N " + CHAIN];
      commands := commands + ["iptables -I " + link + " -j " + CHAIN];
      commands := commands + ["iptables -F " + CHAIN];
      bus.Emit(FirewallReady);
    }

    method OnModuleDestroy()
      modifies this
      ensures Valid() && bannedIps == []
      ensures commands == old(commands) + DestroyCommands(link)
    {
      commands := commands + ["iptables -F " + CHAIN];
      commands := commands + ["iptables -D " + link + " -j " + CHAIN];
      commands := commands + ["iptables -X " + CHAIN];
      bannedIps := [];
    }

    /** `denyIp`: nothing for an address already rejected; otherwise one
        append command and the address recorded. */
    method DenyIp(ip: string)
      requires Valid()
      modifies this
      ensures Valid()
      ensures bannedIps == AfterDeny(old(bannedIps), ip)
      ensures commands == old(commands) + (if ip in old(bannedIps) then [] else [DenyCommand(ip)])
    {
      if ip in bannedIps {
        return;
      }
      commands := commands + [DenyCommand(ip)];
      bannedIps := bannedIps + [ip];
    }

    /** `allowIp`: nothing for an address not rejected; otherwise one delete
        command and the address forgotten. */
    method AllowIp(ip: string)
      requires Valid()
      modifies this
      ensures Valid()
      ensures bannedIps == Without(old(bannedIps), ip)
      ensures commands == old(commands) + (if ip in old(bannedIps) then [AllowCommand(ip)] else [])
    {
      if ip !in bannedIps {
        WithoutAbsent(bannedIps, ip);
        return;
      }
      commands := commands + [AllowCommand(ip)];
      bannedIps := Without(bannedIps, ip);
    }
  }

  // ---------------------------------------------------------------------------
  // The cleanup service
  // ---------------------------------------------------------------------------

  /** `s` with every address of `xs` removed, one after the other. */
  function RemoveAll(s: seq<string>, xs: seq<string>): (r: seq<string>)
    ensures forall x :: x in r <==> x in s && x !in xs
    ensures NoDuplicates(s) ==> NoDuplicates(r)
  {
    if |xs| == 0 then s else Without(RemoveAll(s, xs[..|xs| - 1]), xs[|xs| - 1])
  }

  /** The addresses of `xs` that occur in `s`, in the order of `xs`. */
  function Present(xs: seq<string>, s: seq<string>): (r: seq<string>)
    ensures forall x :: x in r <==> x in xs && x in s
  {
    if |xs| == 0 then []
    else Present(xs[..|xs| - 1], s) + (if xs[|xs| - 1] in s then [xs[|xs| - 1]] else [])
  }

  function AllowCommands(xs: seq<string>): (r: seq<string>)
    ensures |r| == |xs| && forall i :: 0 <= i < |xs| ==> r[i] == AllowCommand(xs[i])
  {
    if |xs| == 0 then [] else AllowCommands(xs[..|xs| - 1]) + [AllowCommand(xs[|xs| - 1])]
  }

  class FirewallCleanupService {
    const firewall: IptablesFirewallService
    /** The addresses denied and not allowed since. */
    var bannedIps: seq<string>

    ghost predicate Valid()
      reads this
    {
      NoDuplicates(bannedIps)
    }

    constructor (firewall: IptablesFirewallService)
      ensures Valid() && bannedIps == [] && this.firewall == firewall
    {
      this.firewall := firewall;
      bannedIps := [];
    }

    /** `onFirewallDeny`: track the address unless it is tracked already. */
    method OnFirewallDeny(ip: string)
      requires Valid()
      modifies this
      ensures Valid()
      ensures bannedIps == AfterDeny(old(bannedIps), ip)
    {
      if ip in bannedIps {
        return;
      }
      bannedIps := bannedIps + [ip];
    }

    /** `onFirewallAllow`: forget every copy of the address. */
    method OnFirewallAllow(ip: string)
      requires Valid()
      modifies this
      ensures Valid()
      ensures bannedIps == Without(old(bannedIps), ip)
    {
      bannedIps := Without(bannedIps, ip);
    }

    /** The shutdown loop has allowed the first `i` tracked addresses,
        starting from the firewall state `start`, `startCommands`. */
    ghost predicate AllowedUpTo(i: nat, start: seq<string>, startCommands: seq<string>)
      reads this, firewall
    {
      && i <= |bannedIps|
      && firewall.Valid()
      && firewall.bannedIps == RemoveAll(start, bannedIps[..i])
      && firewall.commands == startCommands + AllowCommands(Present(bannedIps[..i], start))
    }

    /** One turn of the shutdown loop. */
    method AllowNext(i: nat, ghost start: seq<string>, ghost startCommands: seq<string>)
      requires Valid() && i < |bannedIps| && AllowedUpTo(i, start, startCommands)
      modifies firewall
      ensures AllowedUpTo(i + 1, start, startCommands)
    {
      ghost var before, beforeCommands := firewall.bannedIps, firewall.commands;
      firewall.AllowIp(bannedIps[i]);
      CleanupTurn(start, startCommands, bannedIps, i, before, beforeCommands, firewall.bannedIps, firewall.commands);
    }

    /** `onModuleDestroy`: ask the firewall to allow each tracked address,
        in order. The firewall then holds none of them, and has issued one
        delete command for each that it held. */
    method OnModuleDestroy()
      requires Valid() && firewall.Valid()
      modifies firewall
      ensures firewall.Valid()
      ensures firewall.bannedIps == RemoveAll(old(firewall.bannedIps), bannedIps)
      ensures forall ip :: ip in bannedIps ==> ip !in firewall.bannedIps
      ensures firewall.commands == old(firewall.commands) + AllowCommands(Present(bannedIps, old(firewall.bannedIps)))
    {
      ghost var start, startCommands := firewall.bannedIps, firewall.commands;
      assert bannedIps[..0] == [];
      var i := 0;
      while i < |bannedIps|
        invariant AllowedUpTo(i, start, startCommands)
      {
        AllowNext(i, start, startCommands);
        i := i + 1;
      }
      assert bannedIps[..i] == bannedIps;
    }
  }

  /** The firewall state after allowing the next tracked address is the
      loop's state one step further. */
  lemma CleanupTurn(start: seq<string>, startCommands: seq<string>, xs: seq<string>, i: nat,
                    before: seq<string>, beforeCommands: seq<string>, after: seq<string>, afterCommands: seq<string>)
    requires i < |xs| && NoDuplicates(xs)
    requires before == RemoveAll(start, xs[..i])
    requires beforeCommands == startCommands + AllowCommands(Present(xs[..i], start))
    requires after == Without(before, xs[i])
    requires afterCommands == beforeCommands + (if xs[i] in before then [AllowCommand(xs[i])] else [])
    ensures after == RemoveAll(start, xs[..i + 1])
    ensures afterCommands == startCommands + AllowCommands(Present(xs[..i + 1], start))
  {
    CleanupStep(start, xs, i);
    var done := AllowCommands(Present(xs[..i], start));
    var step := if xs[i] in start then [AllowCommand(xs[i])] else [];
    assert (startCommands + done) + step == startCommands + (done + step);
  }

  /** One step of the shutdown loop: the next tracked address is held by
      the firewall exactly when it was held at the start, because no
      earlier tracked address equals it. */
  lemma CleanupStep(start: seq<string>, xs: seq<string>, i: nat)
    requires i < |xs| && NoDuplicates(xs)
    ensures RemoveAll(start, xs[..i + 1]) == Without(RemoveAll(start, xs[..i]), xs[i])
    ensures xs[i] in RemoveAll(start, xs[..i]) <==> xs[i] in start
    ensures AllowCommands(Present(xs[..i + 1], start))
            == AllowCommands(Present(xs[..i], start)) + (if xs[i] in start then [AllowCommand(xs[i])] else [])
  {
    assert xs[..i + 1][..i] == xs[..i];
    assert xs[i] !in xs[..i];
    var p := Present(xs[..i], start);
    var q := Present(xs[..i + 1], start);
    assert q == p + (if xs[i] in start then [xs[i]] else []);
    var c := AllowCommands(q);
    var d := AllowCommands(p) + (if xs[i] in start then [AllowCommand(xs[i])] else []);
    assert |c| == |d|;
    forall k | 0 <= k < |c|
      ensures c[k] == d[k]
    {
      if k < |p| {
        assert q[k] == p[k];
      }
    }
  }
}
