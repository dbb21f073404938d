/** `apps/core/src/ip_extract.rs`: pulling the offending address out of a
    log line with a configuration's pattern, compiling each pattern once. */
module IpExtract {
  import opened Wrappers
  import opened Strings
  import opened Regex

  /** The address `extract_ip` reports: group 0 of the pattern's first
      match in the line, then the first IPv4-shaped text inside it. */
  function Extracted(engine: Engine, pattern: string, line: string): (r: Option<string>)
    ensures engine.find(FinalPattern(pattern), line).None? ==> r.None?
    ensures r.Some? ==> IsIpv4Shaped(r.value)
                        && Contains(engine.find(FinalPattern(pattern), line).value, r.value)
  {
    match engine.find(FinalPattern(pattern), line)
    case None => None
    case Some(whole) => FirstIpv4Shaped(whole)
  }

  /** When the pattern's whole match is itself a dotted quad (a pattern
      that is just `<IP>`, say), that quad is what is extracted. */
  lemma WholeMatchExtracted(engine: Engine, pattern: string, line: string)
    requires engine.find(FinalPattern(pattern), line).Some?
    requires IsIpv4Shaped(engine.find(FinalPattern(pattern), line).value)
    ensures Extracted(engine, pattern, line) == engine.find(FinalPattern(pattern), line)
  {
    ShapedTextIsFound(engine.find(FinalPattern(pattern), line).value);
  }

  class IpExtractor {
    /** Raw pattern to the compiled (final) pattern. */
    var cache: map<string, string>
    /** How many times a pattern has been compiled. */
    ghost var compilations: nat

    /** Every cached entry is the raw pattern with every `<IP>` replaced,
        and each cached pattern was compiled exactly once. */
    ghost predicate Valid()
      reads this
    {
      && (forall p :: p in cache ==> cache[p] == FinalPattern(p) && !Contains(cache[p], PLACEHOLDER))
      && compilations == |cache|
    }

    constructor ()
      ensures Valid() && cache == map[]
    {
      cache := map[];
      compilations := 0;
    }

    /** `extract_ip`. A pattern not yet cached is substituted and compiled;
        one that does not compile panics in the source, so callers pass
        patterns that compile (configurations are checked when built). */
    method ExtractIp(engine: Engine, pattern: string, line: string) returns (ip: Option<string>)
      requires Valid()
      requires pattern !in cache ==> engine.compiles(FinalPattern(pattern))
      modifies this
      ensures Valid()
      ensures cache == old(cache)[pattern := FinalPattern(pattern)]
      ensures compilations == old(compilations) + (if pattern in old(cache) then 0 else 1)
      ensures ip == Extracted(engine, pattern, line)
    {
      if pattern !in cache {
        var finalPattern := ReplaceAll(pattern, PLACEHOLDER, IP_REGEX);
        FinalPatternHasNoPlaceholder(pattern);
        cache := cache[pattern := finalPattern];
        compilations := compilations + 1;
      }
      var compiled := cache[pattern];
      var captures := engine.find(compiled, line);
      if captures.Some? {
        var found := FirstIpv4Shaped(captures.value);
        if found.Some? {
          return found;
        }
      }
      ip := None;
    }
  }
}
