/** IPv4 addresses and networks as the Rust standard library and the
    `ipnet` crate read and compare them: `Ipv4Addr::from_str`, its
    `Display`, `Ipv4Net::from_str` and `Ipv4Net::contains`. */
module Ipv4 {
  import opened Wrappers
  import opened Strings

  const ADDR_SPACE: nat := 0x1_0000_0000

  /** An address is its 32-bit value, most significant octet first. */
  type Addr = a: nat | a < ADDR_SPACE

  type PrefixLen = n: nat | n <= 32

  /** A network: an address and how many of its leading bits are fixed. */
  datatype Net = Net(addr: Addr, prefixLen: PrefixLen)

  function FromOctets(o0: nat, o1: nat, o2: nat, o3: nat): Addr
    requires o0 < 256 && o1 < 256 && o2 < 256 && o3 < 256
  {
    ((o0 * 256 + o1) * 256 + o2) * 256 + o3
  }

  function Octets(a: Addr): (os: seq<nat>)
    ensures |os| == 4 && forall i :: 0 <= i < 4 ==> os[i] < 256
  {
    [a / 0x100_0000, (a / 0x1_0000) % 256, (a / 256) % 256, a % 256]
  }

  lemma FromOctetsOfOctets(a: Addr)
    ensures var os := Octets(a); FromOctets(os[0], os[1], os[2], os[3]) == a
  {
    var x1 := a / 256;
    var x2 := x1 / 256;
    assert x2 == a / 0x1_0000;
    assert x2 / 256 == a / 0x100_0000;
  }

  /** One dotted-quad group as `Ipv4Addr::from_str` accepts it: one to
      three ASCII digits, no leading zero unless the group is "0", and a
      value that fits in an octet. */
  predicate IsOctetText(p: string)
  {
    && 1 <= |p| <= 3 && AllDigits(p)
    && (|p| == 1 || p[0] != '0')
    && DigitsValue(p) < 256
  }

  function ParseAddr(s: string): (r: Option<Addr>)
  {
    var parts := Split(s, '.');
    if |parts| == 4 && IsOctetText(parts[0]) && IsOctetText(parts[1])
       && IsOctetText(parts[2]) && IsOctetText(parts[3])
    then Some(FromOctets(DigitsValue(parts[0]), DigitsValue(parts[1]),
                         DigitsValue(parts[2]), DigitsValue(parts[3])))
    else None
  }

  /** `Display` for `Ipv4Addr`: the four octets in decimal, dot-separated. */
  function FormatAddr(a: Addr): string
  {
    var os := Octets(a);
    Join([NatToString(os[0]), NatToString(os[1]), NatToString(os[2]), NatToString(os[3])], '.')
  }

  /** The rendering holds no ':', so it fits one field of a ledger key. */
  lemma FormatHasNoColon(a: Addr)
    ensures ':' !in FormatAddr(a)
  {
    var os := Octets(a);
    var parts := [NatToString(os[0]), NatToString(os[1]), NatToString(os[2]), NatToString(os[3])];
    forall i, j | 0 <= i < |parts| && 0 <= j < |parts[i]|
      ensures parts[i][j] != ':'
    {
      assert AllDigits(parts[i]);
    }
    CharNotInJoin(parts, '.', ':');
  }

  /** Distinct addresses render differently. */
  lemma FormatInjective(a: Addr, b: Addr)
    ensures FormatAddr(a) == FormatAddr(b) ==> a == b
  {
    ParseFormat(a);
    ParseFormat(b);
  }

  lemma OctetTextOfNat(n: nat)
    requires n < 256
    ensures IsOctetText(NatToString(n)) && DigitsValue(NatToString(n)) == n
  {
    DigitsValueOfNatToString(n);
  }

  /** Every address survives rendering and parsing back. */
  lemma ParseFormat(a: Addr)
    ensures ParseAddr(FormatAddr(a)) == Some(a)
  {
    var os := Octets(a);
    var parts := [NatToString(os[0]), NatToString(os[1]), NatToString(os[2]), NatToString(os[3])];
    OctetTextOfNat(os[0]);
    OctetTextOfNat(os[1]);
    OctetTextOfNat(os[2]);
    OctetTextOfNat(os[3]);
    SplitJoin(parts, '.');
    FromOctetsOfOctets(a);
  }

  lemma {:induction false} DigitsValuePositive(p: string)
    requires |p| >= 1 && AllDigits(p) && p[0] != '0'
    ensures DigitsValue(p) >= 1
  {
    if |p| > 1 {
      DigitsValuePositive(p[..|p| - 1]);
    }
  }

  /** A digit string without a leading zero is the rendering of its value. */
  lemma {:induction false} NatToStringOfDigits(p: string)
    requires |p| >= 1 && AllDigits(p) && (|p| == 1 || p[0] != '0')
    ensures NatToString(DigitsValue(p)) == p
    decreases |p|
  {
    if |p| > 1 {
      var q := p[..|p| - 1];
      DigitsValuePositive(q);
      NatToStringOfDigits(q);
      var v := DigitsValue(p);
      assert v == DigitsValue(q) * 10 + DigitValue(p[|p| - 1]);
      assert v / 10 == DigitsValue(q) && v % 10 == DigitValue(p[|p| - 1]);
      assert p == q + [p[|p| - 1]];
    }
  }

  lemma FromOctetsInjective(o0: nat, o1: nat, o2: nat, o3: nat)
    requires o0 < 256 && o1 < 256 && o2 < 256 && o3 < 256
    ensures Octets(FromOctets(o0, o1, o2, o3)) == [o0, o1, o2, o3]
  {
    var a := FromOctets(o0, o1, o2, o3);
    var x1 := (o0 * 256 + o1) * 256 + o2;
    assert a / 256 == x1 && a % 256 == o3;
    assert x1 / 256 == o0 * 256 + o1 && x1 % 256 == o2;
    assert (o0 * 256 + o1) / 256 == o0 && (o0 * 256 + o1) % 256 == o1;
    assert a / 0x1_0000 == x1 / 256;
    assert a / 0x100_0000 == (x1 / 256) / 256;
  }

  /** The text the parser accepts is canonical: rendering the parsed
      address gives the very same text, so two accepted texts denote the
      same address only if they are equal. */
  lemma FormatParse(s: string)
    requires ParseAddr(s).Some?
    ensures FormatAddr(ParseAddr(s).value) == s
  {
    var parts := Split(s, '.');
    NatToStringOfDigits(parts[0]);
    NatToStringOfDigits(parts[1]);
    NatToStringOfDigits(parts[2]);
    NatToStringOfDigits(parts[3]);
    FromOctetsInjective(DigitsValue(parts[0]), DigitsValue(parts[1]),
                        DigitsValue(parts[2]), DigitsValue(parts[3]));
    JoinSplit(s, '.');
    assert parts == [parts[0], parts[1], parts[2], parts[3]];
  }

  // ---------------------------------------------------------------------------
  // Networks
  // ---------------------------------------------------------------------------

  function Pow2(k: nat): (r: nat)
    ensures r >= 1
  {
    if k == 0 then 1 else 2 * Pow2(k - 1)
  }

  /** `Ipv4Net::from_str`: an address, '/', and a prefix length of one or
      two digits no larger than 32. */
  function ParseNet(s: string): (r: Option<Net>)
  {
    var parts := Split(s, '/');
    if |parts| == 2 && ParseAddr(parts[0]).Some?
       && 1 <= |parts[1]| <= 2 && AllDigits(parts[1]) && DigitsValue(parts[1]) <= 32
    then Some(Net(ParseAddr(parts[0]).value, DigitsValue(parts[1])))
    else None
  }

  /** `n` contains `a` when their leading `prefixLen` bits agree. */
  predicate Contains(n: Net, a: Addr)
  {
    a / Pow2(32 - n.prefixLen) == n.addr / Pow2(32 - n.prefixLen)
  }

  /** The first address of the network (host bits cleared). */
  function Network(n: Net): int
  {
    (n.addr / Pow2(32 - n.prefixLen)) * Pow2(32 - n.prefixLen)
  }

  /** The last address of the network (host bits set). */
  function Broadcast(n: Net): int
  {
    Network(n) + Pow2(32 - n.prefixLen) - 1
  }

  lemma MulLe(x: nat, y: nat, p: nat)
    requires x <= y
    ensures x * p <= y * p
  {
  }

  lemma MulStrict(x: nat, y: nat, p: nat)
    requires p >= 1
    ensures x * p < y * p + p ==> x <= y
  {
    if x > y {
      MulLe(y + 1, x, p);
      assert (y + 1) * p == y * p + p;
    }
  }

  /** Integer division by `p` picks the unique block `q` holding `a`. */
  lemma DivBlock(a: nat, p: nat, q: nat)
    requires p >= 1
    ensures a / p == q <==> q * p <= a < q * p + p
  {
    var d := a / p;
    assert d * p <= a < d * p + p;
    MulStrict(d, q, p);
    MulStrict(q, d, p);
  }

  /** The prefix comparison is the `ipnet` definition of containment:
      network address <= a <= broadcast address. */
  lemma ContainsIsRange(n: Net, a: Addr)
    ensures Contains(n, a) <==> Network(n) <= a <= Broadcast(n)
  {
    BlockRange(a, Pow2(32 - n.prefixLen), n.addr, Network(n), Broadcast(n));
  }

  /** The addresses in the block of `x` are those from its first address
      `lo` to its last address `hi`. */
  lemma BlockRange(a: nat, p: nat, x: nat, lo: int, hi: int)
    requires p >= 1 && lo == (x / p) * p && hi == lo + p - 1
    ensures a / p == x / p <==> lo <= a <= hi
  {
    DivBlock(a, p, x / p);
  }

  /** A /32 network contains exactly its own address. */
  lemma HostNetIsEquality(n: Net, a: Addr)
    requires n.prefixLen == 32
    ensures Contains(n, a) <==> a == n.addr
  {
  }

  /** A /0 network contains every address. */
  lemma ZeroPrefixContainsAll(n: Net, a: Addr)
    requires n.prefixLen == 0
    ensures Contains(n, a)
  {
    Pow2Value32();
    DivBlock(a, ADDR_SPACE, 0);
    DivBlock(n.addr, ADDR_SPACE, 0);
  }

  lemma Pow2Value32()
    ensures Pow2(32) == ADDR_SPACE
  {
    assert Pow2(8) == 256 by {
      assert Pow2(4) == 16;
    }
    assert Pow2(16) == 0x1_0000 by {
      Pow2Add(8, 8);
    }
    Pow2Add(16, 16);
  }

  lemma {:induction false} Pow2Add(i: nat, j: nat)
    ensures Pow2(i + j) == Pow2(i) * Pow2(j)
  {
    if i > 0 {
      Pow2Add(i - 1, j);
    }
  }
}
