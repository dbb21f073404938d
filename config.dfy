/** A watched source's configuration (`apps/core/src/config.rs`): the raw
    pattern with its `<IP>` placeholder, the compiled pattern, the ban and
    find durations in milliseconds, the match threshold and the ignore list. */
module Configuration {
  import opened Wrappers
  import opened Ints
  import opened Strings
  import opened Regex

  /** The serialisable form stored in the configs tree. */
  datatype ConfigData = ConfigData(
    id: string, name: string, param: string, regex: string,
    banTime: u64, findTime: u64, maxMatches: u32, ignoreIps: seq<string>)

  /** A live configuration. The compiled regex is represented by the final
      pattern it was compiled from. */
  datatype Config = Config(
    id: string, name: string, param: string, regex: string, compiledRegex: string,
    banTime: u64, findTime: u64, maxMatches: u32, ignoreIps: seq<string>)

  /** The two checks applied to a raw pattern, by `new` and by `update`:
      it must hold the placeholder, and the substituted pattern must
      compile. On success, the compiled (final) pattern. */
  function CheckPattern(engine: Engine, regex: string): (r: Result<string>)
    ensures r.Ok? <==> Contains(regex, PLACEHOLDER) && engine.compiles(FinalPattern(regex))
    ensures r.Ok? ==> r.value == FinalPattern(regex) && !Contains(r.value, PLACEHOLDER)
  {
    if !Contains(regex, PLACEHOLDER) then Err("Regex must contain <IP> placeholder")
    else if !engine.compiles(FinalPattern(regex)) then Err("Invalid regex pattern")
    else
      FinalPatternHasNoPlaceholder(regex);
      Ok(FinalPattern(regex))
  }

  /** `Config::new`. */
  function New(engine: Engine, id: string, name: string, param: string, regex: string,
               banTime: u64, findTime: u64, maxMatches: u32, ignoreIps: seq<string>): (r: Result<Config>)
  {
    match CheckPattern(engine, regex)
    case Err(e) => Err(e)
    case Ok(compiled) => Ok(Config(id, name, param, regex, compiled, banTime, findTime, maxMatches, ignoreIps))
  }

  /** A configuration `new` could have produced: its compiled pattern is
      the checked substitution of its raw pattern. */
  predicate Valid(engine: Engine, c: Config)
  {
    CheckPattern(engine, c.regex) == Ok(c.compiledRegex)
  }

  /** `new` fails exactly when the pattern check fails, performs no other
      check, stores every other argument unchanged, and yields a valid
      configuration whose compiled pattern holds no placeholder. */
  lemma NewSpec(engine: Engine, id: string, name: string, param: string, regex: string,
                banTime: u64, findTime: u64, maxMatches: u32, ignoreIps: seq<string>)
    ensures var r := New(engine, id, name, param, regex, banTime, findTime, maxMatches, ignoreIps);
            && (r.Ok? <==> Contains(regex, PLACEHOLDER) && engine.compiles(FinalPattern(regex)))
            && (r.Ok? ==> Valid(engine, r.value) && !Contains(r.value.compiledRegex, PLACEHOLDER))
            && (r.Ok? ==> r.value.id == id && r.value.name == name && r.value.param == param
                          && r.value.regex == regex && r.value.banTime == banTime
                          && r.value.findTime == findTime && r.value.maxMatches == maxMatches
                          && r.value.ignoreIps == ignoreIps)
  {
  }

  /** `file_path`: the watched path is the param, always present. */
  function FilePath(c: Config): (p: Option<string>)
    ensures p.Some? && p.value == c.param
  {
    Some(c.param)
  }

  /** The watched path of a configuration built by `new` is the `param` it
      was built from. */
  lemma FilePathOfNew(engine: Engine, id: string, name: string, param: string, regex: string,
                      banTime: u64, findTime: u64, maxMatches: u32, ignoreIps: seq<string>)
    requires New(engine, id, name, param, regex, banTime, findTime, maxMatches, ignoreIps).Ok?
    ensures FilePath(New(engine, id, name, param, regex, banTime, findTime, maxMatches, ignoreIps).value) == Some(param)
  {
    NewSpec(engine, id, name, param, regex, banTime, findTime, maxMatches, ignoreIps);
  }

  /** `to_data`. */
  function ToData(c: Config): ConfigData
  {
    ConfigData(c.id, c.name, c.param, c.regex, c.banTime, c.findTime, c.maxMatches, c.ignoreIps)
  }

  /** `from_data`: rebuilding through `new`. */
  function FromData(engine: Engine, d: ConfigData): Result<Config>
  {
    New(engine, d.id, d.name, d.param, d.regex, d.banTime, d.findTime, d.maxMatches, d.ignoreIps)
  }

  /** Storing and reloading a valid configuration gives it back. */
  lemma FromDataToData(engine: Engine, c: Config)
    requires Valid(engine, c)
    ensures FromData(engine, ToData(c)) == Ok(c)
  {
  }

  /** Whatever loads from stored data stores back as the same data. */
  lemma ToDataFromData(engine: Engine, d: ConfigData)
    requires FromData(engine, d).Ok?
    ensures ToData(FromData(engine, d).value) == d && Valid(engine, FromData(engine, d).value)
  {
  }

  /** `update`: every `Some` argument replaces its field, every `None`
      leaves it. The fields are written in order, so a rejected pattern
      fails the call after name and param were already replaced, and
      before any later field is touched. */
  method Update(engine: Engine, c: Config, name: Option<string>, param: Option<string>,
                regex: Option<string>, banTime: Option<u64>, findTime: Option<u64>,
                maxMatches: Option<u32>, ignoreIps: Option<seq<string>>)
    returns (updated: Config, result: Outcome)
    ensures result.Fail? <==> regex.Some? && CheckPattern(engine, regex.value).Err?
    ensures updated.id == c.id
    ensures updated.name == (if name.Some? then name.value else c.name)
    ensures updated.param == (if param.Some? then param.value else c.param)
    ensures result.Fail? ==> updated == c.(name := updated.name, param := updated.param)
    ensures result.Pass? ==>
              && updated.regex == (if regex.Some? then regex.value else c.regex)
              && updated.compiledRegex == (if regex.Some? then FinalPattern(regex.value) else c.compiledRegex)
              && updated.banTime == (if banTime.Some? then banTime.value else c.banTime)
              && updated.findTime == (if findTime.Some? then findTime.value else c.findTime)
              && updated.maxMatches == (if maxMatches.Some? then maxMatches.value else c.maxMatches)
              && updated.ignoreIps == (if ignoreIps.Some? then ignoreIps.value else c.ignoreIps)
    ensures Valid(engine, c) ==> Valid(engine, updated)
  {
    updated := c;
    if name.Some? {
      updated := updated.(name := name.value);
    }
    if param.Some? {
      updated := updated.(param := param.value);
    }
    if regex.Some? {
      var checked := CheckPattern(engine, regex.value);
      if checked.Err? {
        return updated, Fail(checked.error);
      }
      updated := updated.(compiledRegex := checked.value);
      updated := updated.(regex := regex.value);
    }
    if banTime.Some? {
      updated := updated.(banTime := banTime.value);
    }
    if findTime.Some? {
      updated := updated.(findTime := findTime.value);
    }
    if maxMatches.Some? {
      updated := updated.(maxMatches := maxMatches.value);
    }
    if ignoreIps.Some? {
      updated := updated.(ignoreIps := ignoreIps.value);
    }
    result := Pass;
  }
}
