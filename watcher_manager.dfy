/** `apps/core/src/watcher_manager.rs`: one running watcher per
    configuration id, each stopped through its own shutdown signal. The
    spawned tasks, the five-second grace period and the abort after it are
    not modelled; a watcher is running while its id is registered. */
module WatcherManagement {
  import opened Wrappers
  import opened Configuration

  lemma SignalStep(added: seq<string>, keys: set<string>, ids: set<string>, id: string)
    requires id in ids && ids <= keys && multiset(added) == multiset(keys - ids)
    ensures multiset(added + [id]) == multiset(keys - (ids - {id}))
  {
    assert keys - (ids - {id}) == (keys - ids) + {id};
  }

  class WatcherManager {
    /** Registered watchers, by configuration id. */
    var watchers: map<string, Config>
    /** Ids whose shutdown signal has been sent, in order. */
    var signalled: seq<string>

    constructor ()
      ensures watchers == map[] && signalled == []
    {
      watchers := map[];
      signalled := [];
    }

    /** `start_watcher`: `validation` is the outcome of the configuration's
        own validation. A failed validation or an id already registered is
        an error and changes nothing. */
    method StartWatcher(config: Config, validation: Outcome) returns (r: Outcome)
      modifies this`watchers
      ensures r.Pass? <==> validation.Pass? && config.id !in old(watchers)
      ensures watchers == if r.Pass? then old(watchers)[config.id := config] else old(watchers)
    {
      if validation.Fail? {
        return validation;
      }
      if config.id in watchers {
        return Fail("Watcher for config already exists");
      }
      watchers := watchers[config.id := config];
      r := Pass;
    }

    /** `stop_watcher`: signals and unregisters a registered watcher; an
        unknown id is an error. */
    method StopWatcher(configId: string) returns (r: Outcome)
      modifies this`watchers, this`signalled
      ensures r.Pass? <==> configId in old(watchers)
      ensures watchers == old(watchers) - {configId}
      ensures signalled == old(signalled) + (if r.Pass? then [configId] else [])
    {
      if configId !in watchers {
        return Fail("Watcher for config not found");
      }
      watchers := watchers - {configId};
      signalled := signalled + [configId];
      r := Pass;
    }

    /** `restart_watcher`: stops a running watcher of the same id, then
        starts anew. A failed validation therefore leaves the id stopped. */
    method RestartWatcher(config: Config, validation: Outcome) returns (r: Outcome)
      modifies this`watchers, this`signalled
      ensures r.Pass? <==> validation.Pass?
      ensures watchers == if r.Pass? then old(watchers)[config.id := config] else old(watchers) - {config.id}
      ensures signalled == old(signalled) + (if config.id in old(watchers) then [config.id] else [])
    {
      if config.id in watchers {
        var stopped := StopWatcher(config.id);
      }
      r := StartWatcher(config, validation);
    }

    /** `stop_all`: every registered watcher is signalled once and
        unregistered. */
    method StopAll()
      modifies this`watchers, this`signalled
      ensures watchers == map[]
      ensures old(signalled) <= signalled
      ensures multiset(signalled[|old(signalled)|..]) == multiset(old(watchers).Keys)
    {
      var ids := watchers.Keys;
      ghost var start := signalled;
      ghost var added: seq<string> := [];
      while ids != {}
        invariant ids <= old(watchers).Keys
        invariant watchers.Keys == ids
        invariant signalled == start + added
        invariant multiset(added) == multiset(old(watchers).Keys - ids)
        decreases ids
      {
        var id :| id in ids;
        SignalStep(added, old(watchers).Keys, ids, id);
        watchers := watchers - {id};
        signalled := signalled + [id];
        added := added + [id];
        ids := ids - {id};
      }
      assert signalled[|start|..] == added;
      assert watchers.Keys == {};
    }

    /** `is_running`. */
    method IsRunning(configId: string) returns (r: bool)
      ensures r <==> configId in watchers
    {
      r := configId in watchers;
    }
  }

  /** A watcher started and stopped again leaves the registry as it was,
      with one signal sent. */
  method StartThenStop(m: WatcherManager, config: Config) returns (started: Outcome, stopped: Outcome)
    requires config.id !in m.watchers
    modifies m
    ensures started.Pass? && stopped.Pass?
    ensures m.watchers == old(m.watchers) && m.signalled == old(m.signalled) + [config.id]
  {
    started := m.StartWatcher(config, Pass);
    stopped := m.StopWatcher(config.id);
  }
}
