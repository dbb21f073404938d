/** The slice of iptables the firewall adapter drives: the chains of the
    `filter` table, each an ordered list of rule texts. A `broken` table
    (no permission, no binary) fails every command and changes nothing. */
module Iptables {
  import opened Wrappers

  /** How many times `rule` occurs in `rules`. */
  function CountOf(rules: seq<string>, rule: string): (n: nat)
    ensures n == 0 <==> rule !in rules
    ensures n <= |rules|
  {
    if |rules| == 0 then 0
    else (if rules[0] == rule then 1 else 0) + CountOf(rules[1..], rule)
  }

  /** `rules` with its first occurrence of `rule` taken out. */
  function RemoveFirst(rules: seq<string>, rule: string): (r: seq<string>)
    requires rule in rules
    ensures |r| == |rules| - 1
    ensures multiset(r) == multiset(rules) - multiset{rule}
  {
    assert rules == [rules[0]] + rules[1..];
    if rules[0] == rule then rules[1..]
    else
      [rules[0]] + RemoveFirst(rules[1..], rule)
  }

  lemma {:induction false} CountOfAppend(rules: seq<string>, x: string, rule: string)
    ensures CountOf(rules + [x], rule) == CountOf(rules, rule) + (if x == rule then 1 else 0)
  {
    if |rules| > 0 {
      assert (rules + [x])[1..] == rules[1..] + [x];
      CountOfAppend(rules[1..], x, rule);
    } else {
      assert [x][1..] == [];
    }
  }

  /** Taking out the first occurrence lowers the count by exactly one. */
  lemma {:induction false} CountOfRemoveFirst(rules: seq<string>, rule: string)
    requires rule in rules
    ensures CountOf(RemoveFirst(rules, rule), rule) == CountOf(rules, rule) - 1
  {
    if rules[0] != rule {
      assert rule in rules[1..] by {
        var i :| 0 <= i < |rules| && rules[i] == rule;
        assert rules[1..][i - 1] == rule;
      }
      CountOfRemoveFirst(rules[1..], rule);
      var r := RemoveFirst(rules, rule);
      assert r[1..] == RemoveFirst(rules[1..], rule);
    }
  }

  /** The jump rule that sends packets into chain `name`. */
  function JumpTo(name: string): string { "-j " + name }

  /** Some chain still jumps to `name`. */
  predicate Referenced(chains: map<string, seq<string>>, name: string)
  {
    exists c :: c in chains && JumpTo(name) in chains[c]
  }

  class RuleTables {
    var chains: map<string, seq<string>>
    var broken: bool

    constructor (builtin: set<string>)
      ensures chains == (map c | c in builtin :: []) && !broken
    {
      chains := map c | c in builtin :: [];
      broken := false;
    }

    /** `-N name`: fails with "already exists" on an existing chain. */
    method NewChain(name: string) returns (r: Outcome)
      modifies this`chains
      ensures r.Pass? <==> !broken && name !in old(chains)
      ensures chains == if r.Pass? then old(chains)[name := []] else old(chains)
    {
      if broken {
        return Fail("iptables unavailable");
      }
      if name in chains {
        return Fail("Chain already exists");
      }
      chains := chains[name := []];
      r := Pass;
    }

    /** `-F name`. */
    method Flush(name: string) returns (r: Outcome)
      modifies this`chains
      ensures r.Pass? <==> !broken && name in old(chains)
      ensures chains == if r.Pass? then old(chains)[name := []] else old(chains)
    {
      if broken || name !in chains {
        return Fail("No chain by that name");
      }
      chains := chains[name := []];
      r := Pass;
    }

    /** `-X name`: only an existing, empty, unreferenced chain goes. */
    method DeleteChain(name: string) returns (r: Outcome)
      modifies this`chains
      ensures r.Pass? <==> !broken && name in old(chains) && old(chains)[name] == [] && !Referenced(old(chains), name)
      ensures chains == if r.Pass? then old(chains) - {name} else old(chains)
    {
      if broken || name !in chains || chains[name] != [] {
        return Fail("Cannot delete chain");
      }
      if exists c :: c in chains && JumpTo(name) in chains[c] {
        return Fail("Too many links");
      }
      chains := chains - {name};
      r := Pass;
    }

    /** `-C chain rule`: a missing chain answers false. */
    method Exists(chain: string, rule: string) returns (r: Result<bool>)
      ensures r.Ok? <==> !broken
      ensures r.Ok? ==> (r.value <==> chain in chains && rule in chains[chain])
    {
      if broken {
        return Err("iptables unavailable");
      }
      r := Ok(chain in chains && rule in chains[chain]);
    }

    /** `-A chain rule`. */
    method Append(chain: string, rule: string) returns (r: Outcome)
      modifies this`chains
      ensures r.Pass? <==> !broken && chain in old(chains)
      ensures chains == if r.Pass? then old(chains)[chain := old(chains)[chain] + [rule]] else old(chains)
    {
      if broken || chain !in chains {
        return Fail("No chain by that name");
      }
      chains := chains[chain := chains[chain] + [rule]];
      r := Pass;
    }

    /** `insert_unique`: refuses a rule already present, else `-I chain pos`
        with 1-based positions. */
    method InsertUnique(chain: string, rule: string, position: nat) returns (r: Outcome)
      modifies this`chains
      ensures r.Pass? <==> !broken && chain in old(chains) && rule !in old(chains)[chain]
                           && 1 <= position <= |old(chains)[chain]| + 1
      ensures chains == if r.Pass? then old(chains)[chain := old(chains)[chain][..position - 1] + [rule] + old(chains)[chain][position - 1..]]
                        else old(chains)
    {
      if broken || chain !in chains || rule in chains[chain] || !(1 <= position <= |chains[chain]| + 1) {
        return Fail("Cannot insert rule");
      }
      var rules := chains[chain];
      chains := chains[chain := rules[..position - 1] + [rule] + rules[position - 1..]];
      r := Pass;
    }

    /** `-D chain rule`: removes the first occurrence; fails if none. */
    method Delete(chain: string, rule: string) returns (r: Outcome)
      modifies this`chains
      ensures r.Pass? <==> !broken && chain in old(chains) && rule in old(chains)[chain]
      ensures chains == if r.Pass? then old(chains)[chain := RemoveFirst(old(chains)[chain], rule)] else old(chains)
    {
      if broken || chain !in chains || rule !in chains[chain] {
        return Fail("Bad rule (does a matching rule exist in that chain?)");
      }
      chains := chains[chain := RemoveFirst(chains[chain], rule)];
      r := Pass;
    }
  }
}
