/** `apps/core/src/config_manager.rs`: the in-memory map of live
    configurations by id, written through to the ledger's configs tree. */
module ConfigManagement {
  import opened Wrappers
  import opened Ints
  import opened Regex
  import opened Configuration
  import opened CoreLedger

  /** The configurations that stored data rebuilds into. */
  function Loadable(engine: Engine, stored: set<ConfigData>): set<Config>
  {
    set d | d in stored && FromData(engine, d).Ok? :: FromData(engine, d).value
  }

  class ConfigManager {
    var configs: map<string, Config>
    const database: CoreDatabase
    const engine: Engine

    /** Each configuration sits under its own id. */
    ghost predicate Valid()
      reads this
    {
      forall id :: id in configs ==> configs[id].id == id
    }

    /** The empty manager `new` starts from before loading. */
    constructor (database: CoreDatabase, engine: Engine)
      ensures Valid() && configs == map[]
      ensures this.database == database && this.engine == engine
    {
      configs := map[];
      this.database := database;
      this.engine := engine;
    }

    /** `load_configs_from_db`: a failing load is an error and changes
        nothing; otherwise every stored entry that rebuilds is inserted
        under its id and entries that do not rebuild are skipped. */
    method LoadConfigsFromDb() returns (r: Outcome)
      requires Valid()
      modifies this`configs
      ensures Valid()
      ensures r.Fail? <==> database.failing
      ensures r.Fail? ==> configs == old(configs)
      ensures r.Pass? ==>
                var loadable := Loadable(engine, StoredUnder(database.configs, database.configs.Keys));
                && (forall c :: c in loadable ==> c.id in configs)
                && (forall id :: id in configs ==>
                      configs[id] in loadable || (id in old(configs) && configs[id] == old(configs)[id]))
                && (forall c :: c in loadable ==> configs[c.id] in loadable)
                && (forall id :: id in old(configs) ==> id in configs)
    {
      var loaded := database.LoadAllConfigs();
      if loaded.Err? {
        return Fail(loaded.error);
      }
      var datas := loaded.value;
      ghost var stored := StoredUnder(database.configs, database.configs.Keys);
      var i := 0;
      while i < |datas|
        invariant 0 <= i <= |datas|
        invariant Valid()
        invariant forall j :: 0 <= j < i && FromData(engine, datas[j]).Ok? ==>
                    datas[j].id in configs && configs[datas[j].id] in Loadable(engine, stored)
        invariant forall id :: id in old(configs) ==> id in configs
        invariant forall id :: id in configs ==>
                    configs[id] in Loadable(engine, stored) || (id in old(configs) && configs[id] == old(configs)[id])
      {
        var rebuilt := FromData(engine, datas[i]);
        if rebuilt.Ok? {
          assert datas[i] in stored;
          configs := configs[rebuilt.value.id := rebuilt.value];
        }
        i := i + 1;
      }
      forall c | c in Loadable(engine, stored)
        ensures c.id in configs && configs[c.id] in Loadable(engine, stored)
      {
        var d :| d in stored && FromData(engine, d).Ok? && FromData(engine, d).value == c;
        assert d in datas;
        var j :| 0 <= j < |datas| && datas[j] == d;
      }
      r := Pass;
    }

    /** `add_config`: a duplicate id, or a failed save, is an error and
        changes nothing; otherwise the data is saved, then the
        configuration is inserted. */
    method AddConfig(config: Config) returns (r: Outcome)
      requires Valid()
      modifies this`configs, database`configs
      ensures Valid()
      ensures r.Pass? <==> config.id !in old(configs) && !database.WriteFails(ConfigKey(config.id))
      ensures r.Fail? ==> configs == old(configs) && database.configs == old(database.configs)
      ensures r.Pass? ==> configs == old(configs)[config.id := config]
                          && database.configs == old(database.configs)[ConfigKey(config.id) := Some(ToData(config))]
    {
      if config.id in configs {
        return Fail("Config with id already exists");
      }
      var saved := database.SaveConfig(ToData(config));
      if saved.Fail? {
        return Fail("Failed to save config to database");
      }
      configs := configs[config.id := config];
      r := Pass;
    }

    /** `get_config`. */
    method GetConfig(id: string) returns (r: Option<Config>)
      requires Valid()
      ensures r.Some? <==> id in configs
      ensures r.Some? ==> r.value == configs[id] && r.value.id == id
    {
      if id in configs {
        r := Some(configs[id]);
      } else {
        r := None;
      }
    }

    /** `update_config`: updates a copy, saves it, then replaces the entry.
        An unknown id, a rejected pattern or a failed save is an error that
        leaves the map as it was, whatever the copy had already received. */
    method UpdateConfig(id: string, name: Option<string>, param: Option<string>, regex: Option<string>,
                        banTime: Option<u64>, findTime: Option<u64>, maxMatches: Option<u32>,
                        ignoreIps: Option<seq<string>>) returns (r: Outcome)
      requires Valid()
      modifies this`configs, database`configs
      ensures Valid()
      ensures r.Fail? ==> configs == old(configs) && database.configs == old(database.configs)
      ensures id !in old(configs) ==> r.Fail?
      ensures (regex.Some? && CheckPattern(engine, regex.value).Err?) || database.WriteFails(ConfigKey(id)) ==> r.Fail?
      ensures r.Pass? <==> id in old(configs) && !database.WriteFails(ConfigKey(id))
                           && !(regex.Some? && CheckPattern(engine, regex.value).Err?)
      ensures r.Pass? ==> id in configs
      ensures r.Pass? ==>
                var old_ := old(configs)[id];
                var c := configs[id];
                && configs == old(configs)[id := c]
                && database.configs == old(database.configs)[ConfigKey(id) := Some(ToData(c))]
                && c.id == id
                && c.name == (if name.Some? then name.value else old_.name)
                && c.param == (if param.Some? then param.value else old_.param)
                && c.regex == (if regex.Some? then regex.value else old_.regex)
                && c.banTime == (if banTime.Some? then banTime.value else old_.banTime)
                && c.findTime == (if findTime.Some? then findTime.value else old_.findTime)
                && c.maxMatches == (if maxMatches.Some? then maxMatches.value else old_.maxMatches)
                && c.ignoreIps == (if ignoreIps.Some? then ignoreIps.value else old_.ignoreIps)
                && (Configuration.Valid(engine, old_) ==> Configuration.Valid(engine, c))
    {
      if id !in configs {
        return Fail("Config with id not found");
      }
      var copy, updated := Update(engine, configs[id], name, param, regex, banTime, findTime, maxMatches, ignoreIps);
      if updated.Fail? {
        return updated;
      }
      var saved := database.SaveConfig(ToData(copy));
      if saved.Fail? {
        return Fail("Failed to save config to database");
      }
      configs := configs[id := copy];
      r := Pass;
    }

    /** `remove_config`: true iff the id was present; the entry is gone
        from the map even when removing it from the store fails. */
    method RemoveConfig(id: string) returns (r: bool)
      requires Valid()
      modifies this`configs, database`configs
      ensures Valid()
      ensures r <==> id in old(configs)
      ensures configs == old(configs) - {id}
      ensures database.configs == if r && !database.WriteFails(ConfigKey(id)) then old(database.configs) - {ConfigKey(id)}
                                  else old(database.configs)
    {
      if id in configs {
        configs := configs - {id};
        var _ := database.RemoveConfig(id);
        r := true;
      } else {
        r := false;
      }
    }

    /** `list_configs`: every live configuration, once each. */
    method ListConfigs() returns (r: seq<Config>)
      requires Valid()
      ensures (set c | c in r) == configs.Values
      ensures |r| == |configs|
    {
      r := [];
      var rest := configs.Keys;
      ghost var seen: set<string> := {};
      while rest != {}
        invariant rest + seen == configs.Keys && rest !! seen
        invariant (set c | c in r) == (set id | id in seen :: configs[id])
        invariant |r| == |seen|
        decreases |rest|
      {
        var id :| id in rest;
        ListStep(seen, id, r);
        r := r + [configs[id]];
        rest := rest - {id};
        seen := seen + {id};
      }
      IdsAreDistinctValues();
    }

    lemma ListStep(seen: set<string>, id: string, r: seq<Config>)
      requires id in configs && id !in seen && seen <= configs.Keys
      requires (set c | c in r) == (set k | k in seen :: configs[k])
      ensures (set c | c in r + [configs[id]]) == (set k | k in seen + {id} :: configs[k])
    {
      assert (set c | c in r + [configs[id]]) == (set c | c in r) + {configs[id]};
      assert (set k | k in seen + {id} :: configs[k]) == (set k | k in seen :: configs[k]) + {configs[id]};
    }

    /** Under Valid, distinct ids hold distinct configurations, so the map
        has as many values as keys. */
    lemma IdsAreDistinctValues()
      requires Valid()
      ensures (set id | id in configs.Keys :: configs[id]) == configs.Values
      ensures |configs.Values| == |configs|
    {
      var vs := configs.Values;
      assert (set c | c in vs :: c.id) == configs.Keys by {
        forall id | id in configs.Keys
          ensures id in (set c | c in vs :: c.id)
        {
          assert configs[id] in vs;
        }
      }
      forall a, b | a in vs && b in vs && a.id == b.id
        ensures a == b
      {
        var ka :| ka in configs && configs[ka] == a;
        var kb :| kb in configs && configs[kb] == b;
      }
      InjectiveImage(vs);
    }

    static lemma InjectiveImage(vs: set<Config>)
      requires forall a, b :: a in vs && b in vs && a.id == b.id ==> a == b
      ensures |(set c | c in vs :: c.id)| == |vs|
    {
      if vs != {} {
        var c :| c in vs;
        var rest := vs - {c};
        InjectiveImage(rest);
        assert (set x | x in vs :: x.id) == (set x | x in rest :: x.id) + {c.id};
      }
    }
  }
}
