/** `apps/web/lib/events.ts`: the web client's event feed for one
    configuration. Matches, bans and unbans are each turned into a feed
    event carrying its kind, its timestamp, a one-word detail and the
    record itself, and the three lists are joined and sorted newest
    first. */
module WebEvents {
  import opened ApiTypes
  import opened Sorting

  /** An unban record as the web client receives it. */
  datatype Unban = Unban(ip: string, timestamp: int, configId: string, banId: string)

  datatype Kind = MatchKind | BanKind | UnbanKind

  datatype Details = Stale | Recent | Active | Expired | Unbanned

  /** The record a feed event wraps. */
  datatype Source = MatchOf(m: MatchRecord) | BanOf(b: Ban) | UnbanOf(u: Unban)

  datatype Event = Event(kind: Kind, timestamp: int, details: Details, source: Source)

  function SourceTime(s: Source): int
  {
    match s
    case MatchOf(m) => m.timestamp
    case BanOf(b) => b.timestamp
    case UnbanOf(u) => u.timestamp
  }

  /** An event is consistent when its kind names the collection its record
      came from, its timestamp is the record's, and its detail is one that
      kind can carry. */
  predicate Consistent(e: Event)
  {
    && e.timestamp == SourceTime(e.source)
    && (e.kind == MatchKind <==> e.source.MatchOf?)
    && (e.kind == BanKind <==> e.source.BanOf?)
    && (e.kind == UnbanKind <==> e.source.UnbanOf?)
    && (e.kind == MatchKind ==> e.details == Recent || e.details == Stale)
    && (e.kind == BanKind ==> e.details == Active || e.details == Expired)
    && (e.kind == UnbanKind ==> e.details == Unbanned)
  }

  /** A ban is shown as active exactly when the record is active. */
  function BanEvent(b: Ban): (e: Event)
    ensures Consistent(e) && e.source == BanOf(b)
    ensures e.details == Active <==> b.active
  {
    Event(BanKind, b.timestamp, if b.active then Active else Expired, BanOf(b))
  }

  /** A match is recent exactly when it is strictly newer than the find
      window that ends at `now` (milliseconds; the find time is in
      seconds). */
  function MatchEvent(m: MatchRecord, config: ApiConfig, now: int): (e: Event)
    ensures Consistent(e) && e.source == MatchOf(m)
    ensures e.details == Recent <==> m.timestamp > now - config.findTime * 1000
  {
    Event(MatchKind, m.timestamp, if m.timestamp > now - config.findTime * 1000 then Recent else Stale, MatchOf(m))
  }

  /** An unban is always shown as unbanned. */
  function UnbanEvent(u: Unban): (e: Event)
    ensures Consistent(e) && e.source == UnbanOf(u) && e.details == Unbanned
  {
    Event(UnbanKind, u.timestamp, Unbanned, UnbanOf(u))
  }

  /** `mapBanstoEvent`. */
  function MapBans(bans: seq<Ban>): (r: seq<Event>)
    ensures |r| == |bans|
    ensures forall i :: 0 <= i < |r| ==> r[i] == BanEvent(bans[i])
  {
    seq(|bans|, i requires 0 <= i < |bans| => BanEvent(bans[i]))
  }

  /** `mapMatchestoEvent` at clock reading `now`. */
  function MapMatches(matches: seq<MatchRecord>, config: ApiConfig, now: int): (r: seq<Event>)
    ensures |r| == |matches|
    ensures forall i :: 0 <= i < |r| ==> r[i] == MatchEvent(matches[i], config, now)
  {
    seq(|matches|, i requires 0 <= i < |matches| => MatchEvent(matches[i], config, now))
  }

  /** `mapUnbanstoEvent`. */
  function MapUnbans(unbans: seq<Unban>): (r: seq<Event>)
    ensures |r| == |unbans|
    ensures forall i :: 0 <= i < |r| ==> r[i] == UnbanEvent(unbans[i])
  {
    seq(|unbans|, i requires 0 <= i < |unbans| => UnbanEvent(unbans[i]))
  }

  function Timestamp(e: Event): int
  {
    e.timestamp
  }

  /** The three lists joined, matches first, before sorting. */
  function Joined(bans: seq<Ban>, matches: seq<MatchRecord>, unbans: seq<Unban>, config: ApiConfig, now: int): seq<Event>
  {
    MapMatches(matches, config, now) + MapBans(bans) + MapUnbans(unbans)
  }

  /** `getEvents` at clock reading `now`: the joined list sorted by
      timestamp, newest first. */
  function GetEvents(bans: seq<Ban>, matches: seq<MatchRecord>, unbans: seq<Unban>, config: ApiConfig, now: int): (r: seq<Event>)
    ensures SortedDesc(r, Timestamp)
    ensures multiset(r) == multiset(Joined(bans, matches, unbans, config, now))
  {
    SortDesc(Joined(bans, matches, unbans, config, now), Timestamp)
  }

  /** Every event of the joined list is consistent with its record. */
  lemma JoinedConsistent(bans: seq<Ban>, matches: seq<MatchRecord>, unbans: seq<Unban>, config: ApiConfig, now: int)
    ensures forall e :: e in Joined(bans, matches, unbans, config, now) ==> Consistent(e)
  {
    var mm, bb, uu := MapMatches(matches, config, now), MapBans(bans), MapUnbans(unbans);
    var joined := Joined(bans, matches, unbans, config, now);
    assert joined == mm + bb + uu;
    forall e | e in joined ensures Consistent(e) {
      assert e in mm || e in bb || e in uu;
    }
  }

  /** Every record of the three inputs has its event in the joined list. */
  lemma JoinedHasEveryRecord(bans: seq<Ban>, matches: seq<MatchRecord>, unbans: seq<Unban>, config: ApiConfig, now: int)
    ensures forall b :: b in bans ==> BanEvent(b) in Joined(bans, matches, unbans, config, now)
    ensures forall m :: m in matches ==> MatchEvent(m, config, now) in Joined(bans, matches, unbans, config, now)
    ensures forall u :: u in unbans ==> UnbanEvent(u) in Joined(bans, matches, unbans, config, now)
  {
    var mm, bb, uu := MapMatches(matches, config, now), MapBans(bans), MapUnbans(unbans);
    assert Joined(bans, matches, unbans, config, now) == mm + bb + uu;
    forall b | b in bans ensures BanEvent(b) in bb {
      var k :| 0 <= k < |bans| && bans[k] == b;
      assert bb[k] == BanEvent(b);
    }
    forall m | m in matches ensures MatchEvent(m, config, now) in mm {
      var k :| 0 <= k < |matches| && matches[k] == m;
      assert mm[k] == MatchEvent(m, config, now);
    }
    forall u | u in unbans ensures UnbanEvent(u) in uu {
      var k :| 0 <= k < |unbans| && unbans[k] == u;
      assert uu[k] == UnbanEvent(u);
    }
  }

  /** The feed has one event per record, every event is consistent with
      the record it wraps, and every record of the three inputs is in the
      feed. */
  lemma GetEventsComplete(bans: seq<Ban>, matches: seq<MatchRecord>, unbans: seq<Unban>, config: ApiConfig, now: int)
    ensures var r := GetEvents(bans, matches, unbans, config, now);
            && |r| == |matches| + |bans| + |unbans|
            && (forall e :: e in r ==> Consistent(e))
            && (forall b :: b in bans ==> BanEvent(b) in r)
            && (forall m :: m in matches ==> MatchEvent(m, config, now) in r)
            && (forall u :: u in unbans ==> UnbanEvent(u) in r)
  {
    SortKeepsElements(Joined(bans, matches, unbans, config, now), Timestamp);
    JoinedConsistent(bans, matches, unbans, config, now);
    JoinedHasEveryRecord(bans, matches, unbans, config, now);
  }
}
