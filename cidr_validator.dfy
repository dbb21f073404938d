/** `apps/api/src/configs/utils/is-cidr-or-ip-validator.ts`: the check the
    API applies to a configuration's ignore list. The value must be an
    array, and every item must be a dotted quad of one to three digits per
    group, optionally followed by '/' and one or two digits, with octets
    of at most 255 and a prefix length of at most 32. */
module CidrValidator {
  import opened Strings
  import opened JsNumbers
  import Ipv4
  import IpMatch

  /** What the decorator may be handed: an array of texts or anything
      else. */
  datatype Value = Array(items: seq<string>) | NotArray

  /** One group of `\d{1,3}` (or `\d{1,2}` for the prefix). */
  predicate DigitRun(s: string, max: nat)
  {
    1 <= |s| <= max && AllDigits(s)
  }

  /** `/^(\d{1,3}\.){3}\d{1,3}$/`. */
  predicate IpShaped(item: string)
  {
    var groups := Split(item, '.');
    |groups| == 4 && forall g :: 0 <= g < 4 ==> DigitRun(groups[g], 3)
  }

  /** `/^(\d{1,3}\.){3}\d{1,3}\/\d{1,2}$/`. */
  predicate CidrShaped(item: string)
  {
    var halves := Split(item, '/');
    |halves| == 2 && IpShaped(halves[0]) && DigitRun(halves[1], 2)
  }

  /** `parseInt(text)` lies in `lo..hi` (a NaN compares false). */
  predicate ParsesWithin(text: string, lo: int, hi: int)
  {
    ParseInt(text).Int? && lo <= ParseInt(text).v <= hi
  }

  /** The callback of `every` for one item. */
  predicate ItemValid(item: string)
  {
    && (IpShaped(item) || CidrShaped(item))
    && (var parts := Split(Split(item, '/')[0], '.');
        forall p :: 0 <= p < |parts| ==> ParsesWithin(parts[p], 0, 255))
    && (CidrShaped(item) ==> !(ParseInt(Split(item, '/')[1]).Int? && (ParseInt(Split(item, '/')[1]).v < 0 || ParseInt(Split(item, '/')[1]).v > 32)))
  }

  /** `validate`: the value must be an array and every item valid. */
  function Validate(value: Value): (ok: bool)
    ensures value.NotArray? ==> !ok
    ensures value == Array([]) ==> ok
    ensures value.Array? ==> (ok <==> forall i :: 0 <= i < |value.items| ==> ItemValid(value.items[i]))
  {
    match value
    case NotArray => false
    case Array(items) => forall i :: 0 <= i < |items| ==> ItemValid(items[i])
  }

  // ---------------------------------------------------------------------------
  // What the checks amount to
  // ---------------------------------------------------------------------------

  /** On a run of digits `parseInt` is the decimal value. */
  lemma ParseIntOfDigits(s: string)
    requires |s| >= 1 && AllDigits(s)
    ensures ParseInt(s) == Int(DigitsValue(s))
  {
    AllDigitsPrefix(s);
  }

  /** The four groups of a quad, each a run of at most three digits with
      a value of at most 255. */
  predicate QuadWithin(s: string)
  {
    var groups := Split(s, '.');
    |groups| == 4 && forall g :: 0 <= g < 4 ==> DigitRun(groups[g], 3) && DigitsValue(groups[g]) <= 255
  }

  lemma QuadParses(s: string)
    requires IpShaped(s)
    ensures (forall p :: 0 <= p < 4 ==> ParsesWithin(Split(s, '.')[p], 0, 255)) <==> QuadWithin(s)
  {
    var groups := Split(s, '.');
    GroupsParse(groups);
    if QuadWithin(s) {
      assert forall g :: 0 <= g < 4 ==> DigitRun(groups[g], 3) && DigitsValue(groups[g]) <= 255;
      assert forall p :: 0 <= p < 4 ==> ParsesWithin(groups[p], 0, 255);
    } else {
      assert !forall g :: 0 <= g < 4 ==> DigitRun(groups[g], 3) && DigitsValue(groups[g]) <= 255;
      var p :| 0 <= p < 4 && !ParsesWithin(groups[p], 0, 255);
      assert !ParsesWithin(Split(s, '.')[p], 0, 255);
    }
  }

  /** Four digit runs parse within 0..255 exactly when their decimal
      values are at most 255. */
  lemma GroupsParse(groups: seq<string>)
    requires |groups| == 4 && forall g :: 0 <= g < 4 ==> DigitRun(groups[g], 3)
    ensures (forall p :: 0 <= p < 4 ==> ParsesWithin(groups[p], 0, 255))
            <==> (forall g :: 0 <= g < 4 ==> DigitRun(groups[g], 3) && DigitsValue(groups[g]) <= 255)
  {
    forall p | 0 <= p < 4
      ensures ParsesWithin(groups[p], 0, 255) <==> DigitsValue(groups[p]) <= 255
    {
      ParseIntOfDigits(groups[p]);
    }
  }

  /** An item is valid exactly when it is a quad of octets 0..255, alone
      or followed by a prefix length 0..32 of one or two digits. */
  lemma ItemValidMeans(item: string)
    ensures ItemValid(item) <==>
              || (Split(item, '/') == [item] && QuadWithin(item))
              || (var halves := Split(item, '/');
                  |halves| == 2 && QuadWithin(halves[0]) && DigitRun(halves[1], 2) && DigitsValue(halves[1]) <= 32)
  {
    var halves := Split(item, '/');
    if IpShaped(item) {
      NoSlashInQuad(item);
      QuadParses(item);
      assert !CidrShaped(item);
    } else if CidrShaped(item) {
      QuadParses(halves[0]);
      ParseIntOfDigits(halves[1]);
    }
  }
  /** The notation `ItemValidMeans` characterises: a quad of octets 0..255,
      alone or followed by a prefix length 0..32 of one or two digits. */
  predicate Notation(item: string)
  {
    || (Split(item, '/') == [item] && QuadWithin(item))
    || (var halves := Split(item, '/');
        |halves| == 2 && QuadWithin(halves[0]) && DigitRun(halves[1], 2) && DigitsValue(halves[1]) <= 32)
  }

  /** A list is accepted exactly when it is an array each of whose items is
      in that notation. */
  lemma ValidateMeans(value: Value)
    ensures Validate(value) <==> value.Array? && forall i :: 0 <= i < |value.items| ==> Notation(value.items[i])
  {
    if value.Array? {
      forall i | 0 <= i < |value.items|
        ensures ItemValid(value.items[i]) <==> Notation(value.items[i])
      {
        ItemValidMeans(value.items[i]);
      }
    }
  }


  /** A quad-shaped text holds no '/', so splitting on '/' leaves it whole. */
  lemma NoSlashInQuad(s: string)
    requires IpShaped(s)
    ensures Split(s, '/') == [s]
  {
    var groups := Split(s, '.');
    forall g, j | 0 <= g < 4 && 0 <= j < |groups[g]|
      ensures groups[g][j] != '/'
    {
      assert IsDigit(groups[g][j]);
    }
    CharNotInJoin(groups, '.', '/');
    JoinSplit(s, '.');
    SplitNoSep(s, '/');
  }

  // ---------------------------------------------------------------------------
  // Agreement with the address rendering
  // ---------------------------------------------------------------------------

  /** Every address as rendered passes the check... */
  lemma RenderedAddressValid(a: Ipv4.Addr)
    ensures IpShaped(Ipv4.FormatAddr(a)) && QuadWithin(Ipv4.FormatAddr(a))
    ensures ItemValid(Ipv4.FormatAddr(a))
  {
    var s := Ipv4.FormatAddr(a);
    Ipv4.ParseFormat(a);
    var groups := Split(s, '.');
    forall g | 0 <= g < 4
      ensures DigitRun(groups[g], 3) && DigitsValue(groups[g]) <= 255
    {
    }
    assert IpShaped(s);
    NoSlashInQuad(s);
    assert QuadWithin(s);
    ItemValidMeans(s);
  }

  /** ...and so does every network written with a prefix length 0..32,
      the boundary lengths /0 and /32 included. */
  lemma RenderedNetworkValid(n: Ipv4.Addr, k: nat)
    requires k <= 32
    ensures ItemValid(IpMatch.CidrText(n, k))
  {
    var s := IpMatch.CidrText(n, k);
    IpMatch.CidrFields(n, k);
    RenderedAddressValid(n);
    var addr := Ipv4.FormatAddr(n);
    NoSlashInQuad(addr);
    DigitsValueOfNatToString(k);
    assert |NatToString(k)| <= 2 by {
      if k >= 10 {
        assert NatToString(k) == NatToString(k / 10) + [DigitChar(k % 10)];
      }
    }
    ItemValidMeans(s);
  }

  /** A single item that fails makes the whole list fail, wherever it
      stands. */
  lemma OneBadItemRejects(items: seq<string>, i: nat)
    requires i < |items| && !ItemValid(items[i])
    ensures !Validate(Array(items))
  {
  }

  // ---------------------------------------------------------------------------
  // Boundary values
  // ---------------------------------------------------------------------------

  lemma QuadSplit(a: string, b: string, c: string, d: string, s: string)
    requires '.' !in a && '.' !in b && '.' !in c && '.' !in d
    requires s == a + "." + b + "." + c + "." + d
    ensures Split(s, '.') == [a, b, c, d]
    ensures '/' !in a && '/' !in b && '/' !in c && '/' !in d ==> '/' !in s
  {
    Join4(a, b, c, d, '.');
    assert Join([a, b, c, d], '.') == s;
    SplitJoin([a, b, c, d], '.');
    if '/' !in a && '/' !in b && '/' !in c && '/' !in d {
      CharNotInJoin([a, b, c, d], '.', '/');
    }
  }

  lemma NetSplit(addr: string, bits: string, s: string)
    requires '/' !in addr && '/' !in bits && s == addr + "/" + bits
    ensures Split(s, '/') == [addr, bits]
  {
    SplitCons(addr, '/', bits);
    SplitNoSep(bits, '/');
  }

  /** A quad of four digit runs each at most 255 is accepted... */
  lemma QuadAccepted(groups: seq<string>, s: string)
    requires Split(s, '.') == groups && |groups| == 4 && '/' !in s
    requires forall g :: 0 <= g < 4 ==> DigitRun(groups[g], 3) && DigitsValue(groups[g]) <= 255
    ensures QuadWithin(s) && ItemValid(s)
  {
    SplitNoSep(s, '/');
    ItemValidMeans(s);
  }

  /** ...and so is such a quad followed by a prefix length of at most
      32... */
  lemma NetAccepted(addr: string, bits: string, s: string)
    requires '/' !in addr && QuadWithin(addr)
    requires DigitRun(bits, 2) && DigitsValue(bits) <= 32
    requires s == addr + "/" + bits
    ensures ItemValid(s)
  {
    NetSplit(addr, bits, s);
    ItemValidMeans(s);
  }

  /** ...the lowest address among them... */
  lemma LowestAddressAccepted()
    ensures ItemValid("0.0.0.0")
  {
    assert "0"[..0] == "";
    assert DigitRun("0", 3) && DigitsValue("0") == 0;
    QuadSplit("0", "0", "0", "0", "0.0.0.0");
    QuadAccepted(["0", "0", "0", "0"], "0.0.0.0");
  }

  lemma TenQuad()
    ensures '/' !in "10.0.0.0" && QuadWithin("10.0.0.0")
  {
    assert "10"[..1] == "1" && "0"[..0] == "";
    assert DigitRun("10", 3) && DigitsValue("10") == 10;
    assert DigitRun("0", 3) && DigitsValue("0") == 0;
    QuadSplit("10", "0", "0", "0", "10.0.0.0");
    QuadAccepted(["10", "0", "0", "0"], "10.0.0.0");
  }

  /** ...and the prefix lengths 0... */
  lemma ZeroPrefixAccepted()
    ensures ItemValid("10.0.0.0/0")
  {
    TenQuad();
    NetAccepted("10.0.0.0", "0", "10.0.0.0/0");
  }

  /** ...and 32... */
  lemma FullPrefixAccepted()
    ensures ItemValid("10.0.0.0/32")
  {
    TenQuad();
    assert "32"[..1] == "3";
    assert DigitRun("32", 2) && DigitsValue("32") == 32;
    NetAccepted("10.0.0.0", "32", "10.0.0.0/32");
  }

  /** ...but a prefix length of 33 is not... */
  lemma Prefix33Rejected()
    ensures !ItemValid("10.0.0.0/33")
  {
    var s := "10.0.0.0/33";
    NetSplit("10.0.0.0", "33", s);
    assert DigitsValue("33") == 33;
    ItemValidMeans(s);
  }

  /** ...nor is a quad whose first group exceeds 255... */
  lemma LargeFirstOctetRejected(a: string, b: string, c: string, d: string, s: string)
    requires '.' !in a && '.' !in b && '.' !in c && '.' !in d
    requires '/' !in a && '/' !in b && '/' !in c && '/' !in d
    requires s == a + "." + b + "." + c + "." + d
    requires AllDigits(a) && DigitsValue(a) > 255
    ensures !ItemValid(s)
  {
    QuadSplit(a, b, c, d, s);
    assert '/' !in s;
    SplitNoSep(s, '/');
    assert !(DigitRun(Split(s, '.')[0], 3) && DigitsValue(Split(s, '.')[0]) <= 255);
    ItemValidMeans(s);
  }

  /** ...such as 256. */
  lemma Octet256Rejected()
    ensures !ItemValid("256.0.0.1")
  {
    assert "256"[..2] == "25" && "25"[..1] == "2" && "2"[..0] == "";
    assert DigitsValue("256") == 256;
    LargeFirstOctetRejected("256", "0", "0", "1", "256.0.0.1");
  }

  /** A quad whose first group carries a leading zero is refused by the
      core's address parser. */
  lemma PaddedGroupRefusedByCore(a: string, b: string, c: string, d: string, s: string)
    requires '.' !in a && '.' !in b && '.' !in c && '.' !in d
    requires s == a + "." + b + "." + c + "." + d
    requires |a| >= 2 && a[0] == '0'
    ensures Ipv4.ParseAddr(s).None?
  {
    QuadSplit(a, b, c, d, s);
    assert !Ipv4.IsOctetText(a);
  }

  /** A zero-padded octet passes this check although the core's address
      parser refuses it, so such an entry is stored but never matches in
      the core's ignore filter. */
  lemma ZeroPaddedAcceptedHereOnly()
    ensures ItemValid("01.2.3.4") && Ipv4.ParseAddr("01.2.3.4").None?
  {
    assert "01"[..1] == "0";
    QuadSplit("01", "2", "3", "4", "01.2.3.4");
    QuadAccepted(["01", "2", "3", "4"], "01.2.3.4");
    PaddedGroupRefusedByCore("01", "2", "3", "4", "01.2.3.4");
  }
}
