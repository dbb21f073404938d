/** The composite keys of the ledger (`apps/core/src/database.rs`,
    `apps/core/src/database/sled_db.rs`): `kind:config:ip:timestamp`, with
    `match` and `ban` as the two kinds and the timestamp in decimal. */
module LedgerKeys {
  import opened Wrappers
  import opened Ints
  import opened Strings

  const MATCH_KIND: string := "match"
  const BAN_KIND: string := "ban"

  /** A parsed key: (config_id, ip, timestamp). */
  datatype Record = Record(configId: string, ip: string, timestamp: u64)

  /** No ':' inside: the field keeps the key at four parts. */
  predicate IsField(s: string) { ':' !in s }

  /** `make_match_key` / `make_ban_key` and the sled key format. */
  function MakeKey(kind: string, configId: string, ip: string, timestamp: u64): string
  {
    (kind + [':']) + ((configId + [':']) + ((ip + [':']) + NatToString(timestamp)))
  }

  function RecordKey(kind: string, r: Record): string
  {
    MakeKey(kind, r.configId, r.ip, r.timestamp)
  }

  /** The scan prefix `kind:config:` of one configuration's records. */
  function ConfigPrefix(kind: string, configId: string): string
  {
    (kind + [':']) + (configId + [':'])
  }

  /** The scan prefix `kind:config:ip:` of one address's records. */
  function AddressPrefix(kind: string, configId: string, ip: string): string
  {
    (kind + [':']) + ((configId + [':']) + (ip + [':']))
  }

  /** `parse_match_key` / `parse_ban_key`: exactly four parts, the kind
      tag first and a u64 timestamp last. */
  function ParseKey(kind: string, key: string): (r: Result<Record>)
  {
    var parts := Split(key, ':');
    if |parts| != 4 || parts[0] != kind then Err("Invalid key format")
    else match ParseU64(parts[3])
      case None => Err("Invalid timestamp in key")
      case Some(ts) => Ok(Record(parts[1], parts[2], ts))
  }

  lemma SplitOfKey(kind: string, configId: string, ip: string, timestamp: u64)
    requires IsField(kind) && IsField(configId) && IsField(ip)
    ensures Split(MakeKey(kind, configId, ip, timestamp), ':') == [kind, configId, ip, NatToString(timestamp)]
  {
    var t := NatToString(timestamp);
    assert forall i :: 0 <= i < |t| ==> t[i] != ':' by {
      assert AllDigits(t);
    }
    Join4(kind, configId, ip, t, ':');
    SplitJoin([kind, configId, ip, t], ':');
  }

  /** Round trip: a key built from colon-free fields parses back to them. */
  lemma ParseMakeKey(kind: string, configId: string, ip: string, timestamp: u64)
    requires IsField(kind) && IsField(configId) && IsField(ip)
    ensures ParseKey(kind, MakeKey(kind, configId, ip, timestamp)) == Ok(Record(configId, ip, timestamp))
  {
    SplitOfKey(kind, configId, ip, timestamp);
    ParseU64OfNatToString(timestamp);
  }

  /** A parsed record has colon-free fields, so rebuilding its key and
      parsing again gives the same record. */
  lemma ParsedRecordRebuilds(kind: string, key: string)
    requires IsField(kind) && ParseKey(kind, key).Ok?
    ensures IsField(ParseKey(kind, key).value.configId) && IsField(ParseKey(kind, key).value.ip)
    ensures ParseKey(kind, RecordKey(kind, ParseKey(kind, key).value)) == ParseKey(kind, key)
  {
    var r := ParseKey(kind, key).value;
    ParseMakeKey(kind, r.configId, r.ip, r.timestamp);
  }

  /** Keys of colon-free fields are distinct for distinct records. */
  lemma MakeKeyInjective(kind: string, c1: string, ip1: string, t1: u64, c2: string, ip2: string, t2: u64)
    requires IsField(kind) && IsField(c1) && IsField(ip1) && IsField(c2) && IsField(ip2)
    ensures MakeKey(kind, c1, ip1, t1) == MakeKey(kind, c2, ip2, t2) ==> c1 == c2 && ip1 == ip2 && t1 == t2
  {
    ParseMakeKey(kind, c1, ip1, t1);
    ParseMakeKey(kind, c2, ip2, t2);
  }

  /** The kind tag decides which parser accepts a key. */
  lemma OtherKindRejects(kind: string, other: string, configId: string, ip: string, timestamp: u64)
    requires IsField(kind) && IsField(configId) && IsField(ip) && other != kind
    ensures ParseKey(other, MakeKey(kind, configId, ip, timestamp)).Err?
  {
    SplitOfKey(kind, configId, ip, timestamp);
  }

  /** An address containing ':' (an IPv6 text, say) makes a key of more
      than four parts, which neither parser accepts. */
  lemma ColonInAddressUnparsable(kind: string, configId: string, ip: string, timestamp: u64)
    requires ':' in ip
    ensures ParseKey(kind, MakeKey(kind, configId, ip, timestamp)).Err?
  {
    var t := NatToString(timestamp);
    SplitLengthConcat(ip, ':', t);
    SplitLengthConcat(configId, ':', (ip + [':']) + t);
    SplitLengthConcat(kind, ':', (configId + [':']) + ((ip + [':']) + t));
    SepSplitsInTwo(ip, ':');
  }

  /** A key lies under the scan prefixes of its own configuration and address. */
  lemma KeyUnderOwnPrefixes(kind: string, configId: string, ip: string, timestamp: u64)
    ensures HasPrefix(MakeKey(kind, configId, ip, timestamp), ConfigPrefix(kind, configId))
    ensures HasPrefix(MakeKey(kind, configId, ip, timestamp), AddressPrefix(kind, configId, ip))
  {
    var k := MakeKey(kind, configId, ip, timestamp);
    var t := NatToString(timestamp);
    assert k == ConfigPrefix(kind, configId) + ((ip + [':']) + t);
    assert k == AddressPrefix(kind, configId, ip) + t;
  }

  /** Any key under `kind:config:ip:` that parses, parses to that
      configuration and that address. */
  lemma UnderAddressPrefix(kind: string, configId: string, ip: string, key: string)
    requires IsField(kind) && IsField(configId) && IsField(ip)
    requires HasPrefix(key, AddressPrefix(kind, configId, ip))
    ensures |Split(key, ':')| >= 3 && Split(key, ':')[..3] == [kind, configId, ip]
    ensures ParseKey(kind, key).Ok? ==>
              ParseKey(kind, key).value.configId == configId && ParseKey(kind, key).value.ip == ip
  {
    var p := AddressPrefix(kind, configId, ip);
    var rest := key[|p|..];
    assert key == p + rest;
    assert key == (kind + [':']) + ((configId + [':']) + ((ip + [':']) + rest));
    SplitCons(ip, ':', rest);
    SplitCons(configId, ':', (ip + [':']) + rest);
    SplitCons(kind, ':', (configId + [':']) + ((ip + [':']) + rest));
  }

  /** Any key under `kind:config:` that parses, parses to that configuration. */
  lemma UnderConfigPrefix(kind: string, configId: string, key: string)
    requires IsField(kind) && IsField(configId)
    requires HasPrefix(key, ConfigPrefix(kind, configId))
    ensures |Split(key, ':')| >= 2 && Split(key, ':')[..2] == [kind, configId]
    ensures ParseKey(kind, key).Ok? ==> ParseKey(kind, key).value.configId == configId
  {
    var p := ConfigPrefix(kind, configId);
    var rest := key[|p|..];
    assert key == p + rest;
    assert key == (kind + [':']) + ((configId + [':']) + rest);
    SplitCons(configId, ':', rest);
    SplitCons(kind, ':', (configId + [':']) + rest);
  }

  /** Scans are isolated: a key of one configuration and address is under
      another's prefix only when configuration and address are the same. */
  lemma AddressPrefixIsolates(kind: string, c1: string, ip1: string, c2: string, ip2: string, timestamp: u64)
    requires IsField(kind) && IsField(c1) && IsField(ip1) && IsField(c2) && IsField(ip2)
    ensures HasPrefix(MakeKey(kind, c2, ip2, timestamp), AddressPrefix(kind, c1, ip1)) <==> c1 == c2 && ip1 == ip2
  {
    KeyUnderOwnPrefixes(kind, c2, ip2, timestamp);
    if HasPrefix(MakeKey(kind, c2, ip2, timestamp), AddressPrefix(kind, c1, ip1)) {
      var key := MakeKey(kind, c2, ip2, timestamp);
      UnderAddressPrefix(kind, c1, ip1, key);
      SplitOfKey(kind, c2, ip2, timestamp);
      assert Split(key, ':')[1] == c1 && Split(key, ':')[2] == ip1;
    }
  }

  lemma ConfigPrefixIsolates(kind: string, c1: string, c2: string, ip: string, timestamp: u64)
    requires IsField(kind) && IsField(c1) && IsField(c2) && IsField(ip)
    ensures HasPrefix(MakeKey(kind, c2, ip, timestamp), ConfigPrefix(kind, c1)) <==> c1 == c2
  {
    KeyUnderOwnPrefixes(kind, c2, ip, timestamp);
    if HasPrefix(MakeKey(kind, c2, ip, timestamp), ConfigPrefix(kind, c1)) {
      var key := MakeKey(kind, c2, ip, timestamp);
      UnderConfigPrefix(kind, c1, key);
      SplitOfKey(kind, c2, ip, timestamp);
      assert Split(key, ':')[1] == c1;
    }
  }
}
