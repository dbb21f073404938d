/** The ignore-list filter of the core (`apps/core/src/ip_utils.rs`): an
    address is ignored when an entry of the list names it, either as a
    network in CIDR notation or as a single address. */
module IpUtils {
  import opened Wrappers
  import opened Strings
  import opened Ipv4

  /** One ignore-list entry against an address: an entry holding '/' is
      read as a network and must contain the address; any other entry is
      read as an address and must equal it. An entry that does not parse
      matches nothing. */
  predicate EntryMatches(entry: string, a: Addr)
  {
    if '/' in entry then ParseNet(entry).Some? && Ipv4.Contains(ParseNet(entry).value, a)
    else ParseAddr(entry) == Some(a)
  }

  /** The entries are tried in order and the first match answers. */
  function AnyEntryMatches(entries: seq<string>, a: Addr): (r: bool)
    ensures r <==> exists i :: 0 <= i < |entries| && EntryMatches(entries[i], a)
  {
    if |entries| == 0 then false
    else if EntryMatches(entries[0], a) then true
    else
      var rest := AnyEntryMatches(entries[1..], a);
      assert forall i :: 1 <= i < |entries| ==> entries[i] == entries[1..][i - 1];
      rest
  }

  /** `is_ip_in_list`: text that is not an address is never ignored. */
  function IsIpInList(ip: string, ignoreList: seq<string>): (r: bool)
    ensures r <==> ParseAddr(ip).Some?
                   && exists i :: 0 <= i < |ignoreList| && EntryMatches(ignoreList[i], ParseAddr(ip).value)
  {
    match ParseAddr(ip)
    case None => false
    case Some(a) => AnyEntryMatches(ignoreList, a)
  }

  lemma SameEntriesSameAnswer(l1: seq<string>, l2: seq<string>, a: Addr)
    requires forall e :: e in l1 ==> e in l2
    ensures AnyEntryMatches(l1, a) ==> AnyEntryMatches(l2, a)
  {
    if AnyEntryMatches(l1, a) {
      var i :| 0 <= i < |l1| && EntryMatches(l1[i], a);
      assert l1[i] in l2;
      var j :| 0 <= j < |l2| && l2[j] == l1[i];
      assert EntryMatches(l2[j], a);
    }
  }

  /** The answer depends only on which entries the list holds, not on
      their order or repetition. */
  lemma IgnoreListOrderIrrelevant(ip: string, l1: seq<string>, l2: seq<string>)
    requires forall e :: e in l1 <==> e in l2
    ensures IsIpInList(ip, l1) == IsIpInList(ip, l2)
  {
    if ParseAddr(ip).Some? {
      SameEntriesSameAnswer(l1, l2, ParseAddr(ip).value);
      SameEntriesSameAnswer(l2, l1, ParseAddr(ip).value);
    }
  }

  lemma {:induction false} CharInJoin(parts: seq<string>, sep: char, c: char)
    requires |parts| >= 1 && c != sep && c in Join(parts, sep)
    ensures exists i :: 0 <= i < |parts| && c in parts[i]
  {
    if |parts| > 1 {
      if c !in parts[0] {
        CharInJoin(parts[1..], sep, c);
        var i :| 0 <= i < |parts[1..]| && c in parts[1..][i];
        assert c in parts[i + 1];
      }
    }
  }

  lemma AddrTextHasNoSlash(s: string)
    requires ParseAddr(s).Some?
    ensures '/' !in s
  {
    var parts := Split(s, '.');
    JoinSplit(s, '.');
    if '/' in s {
      CharInJoin(parts, '.', '/');
    }
  }

  /** An address listed verbatim is ignored. */
  lemma ListedAddressIgnored(ip: string, ignoreList: seq<string>)
    requires ParseAddr(ip).Some? && ip in ignoreList
    ensures IsIpInList(ip, ignoreList)
  {
    AddrTextHasNoSlash(ip);
    var i :| 0 <= i < |ignoreList| && ignoreList[i] == ip;
    assert EntryMatches(ignoreList[i], ParseAddr(ip).value);
  }

  /** A listed network ignores every address between its network and
      broadcast addresses, and only those. */
  lemma ListedNetworkIgnoresRange(ip: string, entry: string)
    requires ParseAddr(ip).Some? && ParseNet(entry).Some?
    ensures IsIpInList(ip, [entry]) <==>
              Network(ParseNet(entry).value) <= ParseAddr(ip).value <= Broadcast(ParseNet(entry).value)
  {
    var parts := Split(entry, '/');
    JoinSplit(entry, '/');
    assert Join(parts, '/') == parts[0] + ['/'] + parts[1];
    assert '/' in entry by {
      assert entry[|parts[0]|] == '/';
    }
    ContainsIsRange(ParseNet(entry).value, ParseAddr(ip).value);
  }
}
