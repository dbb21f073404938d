/** `apps/api/src/watchers/services/watcher-manager.service.ts`: the API's
    watcher supervisor. It keeps a plain list of watchers, appends one per
    created configuration, and on a removed or updated configuration stops
    every watcher and appends a fresh one per stored configuration, without
    dropping the stopped ones. Its status report folds the list into a
    record keyed by configuration id. */
module ApiWatcherManagement {
  import opened Wrappers
  import opened ApiTypes

  datatype Status = Init | Running | Stopped | Error

  /** What a watcher holds in `error`: an object that may or may not carry
      a `message` property. */
  datatype WatcherError = WatcherError(message: Option<string>)

  /** A watcher as the supervisor sees it. */
  datatype Watcher = Watcher(configId: string, status: Status, processedLines: nat, error: Option<WatcherError>)

  /** One entry of the status record. */
  datatype StatusEntry = StatusEntry(status: Status, processedLines: nat, error: Option<string>)

  /** A watcher just created for `config` and started: `start` returns
      before tailing has begun, so the watcher is still initialising. */
  function Launch(config: ApiConfig): (w: Watcher)
    ensures w.configId == config.id && w.status == Init && w.processedLines == 0 && w.error.None?
  {
    Watcher(config.id, Init, 0, None)
  }

  /** `stop` marks the watcher stopped and keeps the rest. */
  function Stop(w: Watcher): Watcher
  {
    w.(status := Stopped)
  }

  /** The watchers `startWatchers` appends, one per stored configuration,
      in store order. */
  function LaunchAll(configs: seq<ApiConfig>): (r: seq<Watcher>)
    ensures |r| == |configs|
    ensures forall i :: 0 <= i < |r| ==> r[i] == Launch(configs[i])
  {
    if |configs| == 0 then [] else [Launch(configs[0])] + LaunchAll(configs[1..])
  }

  /** Every watcher stopped, in place. */
  function StopAll(ws: seq<Watcher>): (r: seq<Watcher>)
    ensures |r| == |ws|
    ensures forall i :: 0 <= i < |r| ==> r[i] == Stop(ws[i])
  {
    seq(|ws|, i requires 0 <= i < |ws| => Stop(ws[i]))
  }

  /** The error a status entry reports: the message when the watcher has an
      error that carries one, otherwise none. */
  function ErrorText(w: Watcher): (e: Option<string>)
    ensures e.Some? <==> w.error.Some? && w.error.value.message.Some?
    ensures e.Some? ==> e.value == w.error.value.message.value
  {
    match w.error
    case None => None
    case Some(err) => err.message
  }

  function Entry(w: Watcher): StatusEntry
  {
    StatusEntry(w.status, w.processedLines, ErrorText(w))
  }

  /** The set of configuration ids the watchers serve. */
  function Ids(ws: seq<Watcher>): set<string>
  {
    set i | 0 <= i < |ws| :: ws[i].configId
  }

  /** `getStatus`: the list folded from the left into a record, each
      watcher writing its configuration's entry. One entry per distinct
      configuration id. */
  function StatusOf(ws: seq<Watcher>): (r: map<string, StatusEntry>)
    ensures r.Keys == Ids(ws)
  {
    if |ws| == 0 then map[]
    else
      var front := ws[..|ws| - 1];
      var r := StatusOf(front)[ws[|ws| - 1].configId := Entry(ws[|ws| - 1])];
      assert Ids(ws) == Ids(front) + {ws[|ws| - 1].configId} by {
        forall id | id in Ids(ws) ensures id in Ids(front) + {ws[|ws| - 1].configId} {
          var i :| 0 <= i < |ws| && ws[i].configId == id;
          if i < |ws| - 1 {
            assert front[i] == ws[i];
          }
        }
        forall id | id in Ids(front) ensures id in Ids(ws) {
          var i :| 0 <= i < |front| && front[i].configId == id;
          assert ws[i] == front[i];
        }
      }
      r
  }

  /** No watcher after position `i` serves the same configuration. */
  predicate LastFor(ws: seq<Watcher>, i: int)
    requires 0 <= i < |ws|
  {
    forall j :: i < j < |ws| ==> ws[j].configId != ws[i].configId
  }

  /** A later watcher with the same configuration id overrides an earlier
      one: the record shows the last watcher of each configuration. */
  lemma {:induction false} LastWatcherWins(ws: seq<Watcher>, i: int)
    requires 0 <= i < |ws| && LastFor(ws, i)
    ensures StatusOf(ws)[ws[i].configId] == Entry(ws[i])
  {
    if i < |ws| - 1 {
      var front := ws[..|ws| - 1];
      assert front[i] == ws[i];
      assert LastFor(front, i) by {
        forall j | i < j < |front| ensures front[j].configId != front[i].configId {
          assert front[j] == ws[j];
        }
      }
      LastWatcherWins(front, i);
    }
  }

  class WatcherManagerService {
    var watchers: seq<Watcher>

    constructor ()
      ensures watchers == []
    {
      watchers := [];
    }

    /** `onModuleInit` (and the tail of the removed and updated handlers):
        `startWatchers` over the stored configurations. */
    method StartWatchers(stored: seq<ApiConfig>)
      modifies this
      ensures watchers == old(watchers) + LaunchAll(stored)
    {
      var i := 0;
      while i < |stored|
        invariant 0 <= i <= |stored|
        invariant watchers == old(watchers) + LaunchAll(stored[..i])
      {
        LaunchAllAppend(stored[..i], stored[i]);
        assert stored[..i + 1] == stored[..i] + [stored[i]];
        watchers := watchers + [Launch(stored[i])];
        i := i + 1;
      }
      assert stored[..i] == stored;
    }

    /** `onModuleDestroy`: stop every watcher; none is removed. */
    method OnModuleDestroy()
      modifies this
      ensures watchers == StopAll(old(watchers))
    {
      var i := 0;
      while i < |watchers|
        invariant 0 <= i <= |watchers| == |old(watchers)|
        invariant forall k :: 0 <= k < i ==> watchers[k] == Stop(old(watchers)[k])
        invariant forall k :: i <= k < |watchers| ==> watchers[k] == old(watchers)[k]
      {
        watchers := watchers[i := Stop(watchers[i])];
        i := i + 1;
      }
    }

    /** `getStatus`. */
    function GetStatus(): map<string, StatusEntry>
      reads this
    {
      StatusOf(watchers)
    }

    /** `handleConfigAdded`: one started watcher appended. */
    method HandleConfigAdded(config: ApiConfig)
      modifies this
      ensures watchers == old(watchers) + [Launch(config)]
    {
      watchers := watchers + [Launch(config)];
    }

    /** `handleConfigRemoved` and `handleConfigUpdated`, which do the same:
        stop every watcher, then start one per configuration still stored
        (`stored`, what the configuration store returns). */
    method HandleConfigChanged(stored: seq<ApiConfig>)
      modifies this
      ensures watchers == StopAll(old(watchers)) + LaunchAll(stored)
    {
      OnModuleDestroy();
      StartWatchers(stored);
    }
  }

  lemma LaunchAllAppend(configs: seq<ApiConfig>, c: ApiConfig)
    ensures LaunchAll(configs + [c]) == LaunchAll(configs) + [Launch(c)]
  {
  }

  /** After a removal or update, the list has grown by the stored
      configurations: every earlier watcher is still there, stopped. */
  lemma ChangeKeepsStoppedWatchers(ws: seq<Watcher>, stored: seq<ApiConfig>)
    ensures var r := StopAll(ws) + LaunchAll(stored);
            && |r| == |ws| + |stored|
            && (forall i :: 0 <= i < |ws| ==> r[i].status == Stopped && r[i].configId == ws[i].configId)
            && (forall i :: |ws| <= i < |r| ==> r[i].status == Init)
  {
  }

  /** After a removal or update, a configuration that is still stored is
      reported by its new watcher, initialising with no lines and no error,
      while a removed configuration that had a watcher is still reported,
      as stopped. */
  lemma {:induction false} StatusAfterChange(ws: seq<Watcher>, stored: seq<ApiConfig>, id: string)
    ensures var s := StatusOf(StopAll(ws) + LaunchAll(stored));
            && ((exists k :: 0 <= k < |stored| && stored[k].id == id) ==> id in s && s[id] == StatusEntry(Init, 0, None))
            && ((forall k :: 0 <= k < |stored| ==> stored[k].id != id) && id in Ids(ws)
                ==> id in s && s[id].status == Stopped)
  {
    var r := StopAll(ws) + LaunchAll(stored);
    var launched := LaunchAll(stored);
    if k :| 0 <= k < |stored| && stored[k].id == id {
      assert r[|ws| + k] == launched[k];
      var last := LastIndexOf(r, |ws| + k);
      assert r[last] == launched[last - |ws|] == Launch(stored[last - |ws|]);
      LastWatcherWins(r, last);
    } else if id in Ids(ws) {
      var i :| 0 <= i < |ws| && ws[i].configId == id;
      assert r[i].configId == id;
      var last := LastIndexOf(r, i);
      assert last < |ws|;
      assert r[last] == Stop(ws[last]);
      LastWatcherWins(r, last);
    }
  }

  /** The status of a configuration carries the error message of its last
      watcher when that watcher has an error with a message, and no error
      text otherwise. */
  lemma StatusErrorText(ws: seq<Watcher>, i: int)
    requires 0 <= i < |ws| && LastFor(ws, i)
    ensures ws[i].configId in StatusOf(ws)
    ensures StatusOf(ws)[ws[i].configId].error
            == if ws[i].error.Some? && ws[i].error.value.message.Some? then Some(ws[i].error.value.message.value) else None
  {
    LastWatcherWins(ws, i);
  }

  /** The last position serving the same configuration as position `i`. */
  lemma LastIndexOf(ws: seq<Watcher>, i: int) returns (last: int)
    requires 0 <= i < |ws|
    ensures i <= last < |ws| && ws[last].configId == ws[i].configId && LastFor(ws, last)
    decreases |ws| - i
  {
    if LastFor(ws, i) {
      last := i;
    } else {
      var j :| i < j < |ws| && ws[j].configId == ws[i].configId;
      last := LastIndexOf(ws, j);
    }
  }
}
