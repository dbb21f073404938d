/** The address helpers of the API's match handler
    (`apps/api/src/matches/services/match-event-handler.service.ts`):
    `ipToLong`, `isIpInCidr` and `isIpInList`, with JavaScript's 32-bit
    operator semantics written out. */
module IpMatch {
  import opened Strings
  import opened Wrappers
  import opened JsNumbers
  import Ipv4
  import IpUtils

  /** The `i`-th dot-separated field converted by `Number`, or NaN when
      the text has fewer fields (destructuring yields `undefined`). */
  function Field(parts: seq<string>, i: nat): Num
  {
    if i < |parts| then NumberOf(parts[i]) else NaN
  }

  /** `ipToLong`: the first three fields are shifted into place with `<<`,
      the fourth is added as it is, and `>>> 0` reads the sum as an
      unsigned 32-bit value (NaN, e.g. a missing fourth field, gives 0). */
  function IpToLong(ip: string): (r: int)
    ensures 0 <= r < TWO_32
  {
    var parts := Split(ip, '.');
    var sum := Add(Add(Add(Int(ShiftLeft(Field(parts, 0), Int(24))),
                           Int(ShiftLeft(Field(parts, 1), Int(16)))),
                       Int(ShiftLeft(Field(parts, 2), Int(8)))),
                   Field(parts, 3));
    ToUint32(sum)
  }

  /** The mask `~((1 << (32 - bits)) - 1)`. */
  function Mask(bits: Num): int
  {
    BitNot(Int(ShiftLeft(Int(1), Sub(Int(32), bits)) - 1))
  }

  /** The prefix text of a CIDR entry: the second '/'-field, or "32" when
      there is none. */
  function BitsText(cidr: string): string
  {
    var parts := Split(cidr, '/');
    if |parts| >= 2 then parts[1] else "32"
  }

  /** `isIpInCidr`: both addresses ANDed with the mask and compared. */
  predicate IsIpInCidr(ip: string, cidr: string)
  {
    var mask := Mask(ParseInt(BitsText(cidr)));
    BitAnd(Int(IpToLong(ip)), Int(mask)) == BitAnd(Int(IpToLong(Split(cidr, '/')[0])), Int(mask))
  }

  /** One entry of the ignore list: an entry holding '/' is a CIDR range,
      any other entry must equal the address text exactly. */
  predicate EntryHit(ip: string, entry: string)
  {
    if '/' in entry then IsIpInCidr(ip, entry) else ip == entry
  }

  /** `isIpInList`: `some` over the entries. */
  predicate IsIpInList(ip: string, ignoreList: seq<string>)
  {
    exists i :: 0 <= i < |ignoreList| && EntryHit(ip, ignoreList[i])
  }

  /** The text of a network entry as an operator writes it. */
  function CidrText(n: Ipv4.Addr, k: nat): string
  {
    Ipv4.FormatAddr(n) + "/" + NatToString(k)
  }

  // ---------------------------------------------------------------------------
  // ipToLong
  // ---------------------------------------------------------------------------

  /** Dotted-quad text converts to a·2^24 + b·2^16 + c·2^8 + d, whatever
      spelling each field has, as long as `Number` reads it as the octet. */
  lemma IpToLongOfQuad(a: string, b: string, c: string, d: string, o0: nat, o1: nat, o2: nat, o3: nat)
    requires o0 < 256 && o1 < 256 && o2 < 256 && o3 < 256
    requires '.' !in a && '.' !in b && '.' !in c && '.' !in d
    requires NumberOf(a) == Int(o0) && NumberOf(b) == Int(o1) && NumberOf(c) == Int(o2) && NumberOf(d) == Int(o3)
    ensures IpToLong(Join([a, b, c, d], '.')) == o0 * 0x100_0000 + o1 * 0x1_0000 + o2 * 0x100 + o3
  {
    var parts := Split(Join([a, b, c, d], '.'), '.');
    SplitJoin([a, b, c, d], '.');
    var t0 := ShiftLeft(Field(parts, 0), Int(24));
    var t1 := ShiftLeft(Field(parts, 1), Int(16));
    var t2 := ShiftLeft(Field(parts, 2), Int(8));
    var sum := Add(Add(Add(Int(t0), Int(t1)), Int(t2)), Field(parts, 3));
    assert IpToLong(Join([a, b, c, d], '.')) == ToUint32(sum);
    ShiftByConstants();
    ShiftInRange(o1, 16);
    ShiftInRange(o2, 8);
    ShiftTopOctet(o0);
    var low := o1 * 0x1_0000 + o2 * 0x100 + o3;
    assert sum == Int(t0 + low);
    WrapSum(o0 * 0x100_0000, low, t0);
  }

  /** `>>> 0` brings a sum whose top term wrapped to the sign bit back to
      the unsigned value. */
  lemma WrapSum(hi: nat, low: nat, s: int)
    requires hi + low < TWO_32 && (s == hi || s == hi - TWO_32)
    ensures ToUint32(Int(s + low)) == hi + low
  {
  }

  /** A rendered natural number holds no dot and converts back to itself. */
  lemma NumberOfNat(n: nat)
    ensures '.' !in NatToString(n)
    ensures NumberOf(NatToString(n)) == Int(n)
  {
    DigitsValueOfNatToString(n);
  }

  /** A shift that stays below 2^31 is a plain multiplication. */
  lemma ShiftInRange(o: nat, k: nat)
    requires k < 32 && o * Ipv4.Pow2(k) < TWO_31
    ensures ShiftLeft(Int(o), Int(k)) == o * Ipv4.Pow2(k)
  {
    var p := Ipv4.Pow2(k);
    var m := o * p;
    assert o <= m by {
      Ipv4.MulLe(1, p, o);
    }
    assert ToUint32(Int(o)) == o;
    assert ToInt32(Int(o)) == o;
    assert ToUint32(Int(k)) == k;
    assert k % 32 == k;
    assert ToUint32(Int(m)) == m;
    assert ToInt32(Int(m)) == m;
  }

  /** The top octet shifted by 24 may land on the sign bit. */
  lemma ShiftTopOctet(o0: nat)
    requires o0 < 256 && Ipv4.Pow2(24) == 0x100_0000
    ensures ShiftLeft(Int(o0), Int(24)) == if o0 >= 128 then o0 * 0x100_0000 - TWO_32 else o0 * 0x100_0000
  {
    assert ToInt32(Int(o0)) == o0;
    assert ToUint32(Int(24)) % 32 == 24;
    assert 0 <= o0 * 0x100_0000 < TWO_32;
    assert ToUint32(Int(o0 * 0x100_0000)) == o0 * 0x100_0000;
  }

  lemma ShiftByConstants()
    ensures Ipv4.Pow2(8) == 0x100 && Ipv4.Pow2(16) == 0x1_0000 && Ipv4.Pow2(24) == 0x100_0000
  {
    assert Ipv4.Pow2(8) == 256 by {
      assert Ipv4.Pow2(4) == 16;
    }
    Ipv4.Pow2Add(8, 8);
    Ipv4.Pow2Add(16, 8);
  }

  /** Every rendered address converts back to its value. */
  lemma IpToLongOfFormat(x: Ipv4.Addr)
    ensures IpToLong(Ipv4.FormatAddr(x)) == x
  {
    var os := Ipv4.Octets(x);
    NumberOfNat(os[0]);
    NumberOfNat(os[1]);
    NumberOfNat(os[2]);
    NumberOfNat(os[3]);
    IpToLongOfQuad(NatToString(os[0]), NatToString(os[1]), NatToString(os[2]), NatToString(os[3]),
                   os[0], os[1], os[2], os[3]);
    Ipv4.FromOctetsOfOctets(x);
  }

  // ---------------------------------------------------------------------------
  // The mask
  // ---------------------------------------------------------------------------

  /** For a prefix length 0..32 the mask keeps the top bits above bit
      `(32 - k) mod 32`: since JavaScript reduces the shift count modulo
      32, prefix 0 yields the same all-ones mask as prefix 32. */
  lemma MaskOfPrefix(k: nat)
    requires k <= 32
    ensures var c := (32 - k) % 32;
            ToUint32(Int(Mask(Int(k)))) == TWO_32 - Ipv4.Pow2(c)
  {
    var c := (32 - k) % 32;
    var p := Ipv4.Pow2(c);
    ShiftCount(k);
    PowBelow32(c);
    MaskFromShift(ShiftLeft(Int(1), Sub(Int(32), Int(k))), p);
  }

  /** `1 << (32 - k)` is 2 to the reduced count, as a signed 32-bit value. */
  lemma ShiftCount(k: nat)
    requires k <= 32
    ensures ShiftLeft(Int(1), Sub(Int(32), Int(k))) == ToInt32(Int(Ipv4.Pow2((32 - k) % 32)))
  {
    var count := Sub(Int(32), Int(k));
    assert count == Int(32 - k);
    assert ToUint32(count) % 32 == (32 - k) % 32;
    assert ToInt32(Int(1)) == 1;
  }

  /** `~(t - 1)` for `t` the signed form of a power of two up to 2^31. */
  lemma MaskFromShift(t: int, p: nat)
    requires 1 <= p <= TWO_31 && t == ToInt32(Int(p))
    ensures ToUint32(Int(BitNot(Int(t - 1)))) == TWO_32 - p
  {
    if p < TWO_31 {
      assert t == p;
      assert ToInt32(Int(t - 1)) == p - 1;
    } else {
      assert t == -TWO_31;
      assert ToInt32(Int(t - 1)) == TWO_31 - 1;
    }
  }

  lemma PowBelow32(c: nat)
    requires c < 32
    ensures c < 31 ==> Ipv4.Pow2(c) < TWO_31
    ensures c == 31 ==> Ipv4.Pow2(c) == TWO_31
  {
    assert Ipv4.Pow2(31) == TWO_31 by {
      ShiftByConstants();
      Ipv4.Pow2Add(24, 7);
    }
    if c < 31 {
      JsNumbers.Pow2Monotone(c, 30);
    }
  }

  /** Masking an unsigned 32-bit value with that mask clears its low `c`
      bits. */
  lemma MaskedValue(x: int, k: nat)
    requires 0 <= x < TWO_32 && k <= 32
    ensures var p := Ipv4.Pow2((32 - k) % 32);
            BitAnd(Int(x), Int(Mask(Int(k)))) == ToInt32(Int((x / p) * p))
  {
    var c := (32 - k) % 32;
    var p := Ipv4.Pow2(c);
    var m := Mask(Int(k));
    MaskOfPrefix(k);
    Ipv4.Pow2Value32();
    assert ToUint32(Int(m)) == Ipv4.Pow2(32) - p;
    assert ToUint32(Int(x)) == x;
    JsNumbers.AndHighMask(x, 32, c);
    assert AndBits(x, Ipv4.Pow2(32) - p, 32) == (x / p) * p;
    assert BitAnd(Int(x), Int(m)) == ToInt32(Int(AndBits(x, Ipv4.Pow2(32) - p, 32)));
  }

  // ---------------------------------------------------------------------------
  // isIpInCidr as written
  // ---------------------------------------------------------------------------

  lemma CidrFields(n: Ipv4.Addr, k: nat)
    ensures Split(CidrText(n, k), '/') == [Ipv4.FormatAddr(n), NatToString(k)]
    ensures BitsText(CidrText(n, k)) == NatToString(k)
  {
    var parts := [Ipv4.FormatAddr(n), NatToString(k)];
    Ipv4.ParseFormat(n);
    IpUtils.AddrTextHasNoSlash(Ipv4.FormatAddr(n));
    assert '/' !in NatToString(k) by {
      assert AllDigits(NatToString(k));
    }
    SplitJoin(parts, '/');
    assert Join(parts, '/') == CidrText(n, k);
  }

  /** `isIpInCidr` on well-formed text: prefixes 1..32 test network
      containment, but prefix 0 tests equality with the network address
      (the shift count 32 wraps to 0). */
  lemma CidrAsWritten(a: Ipv4.Addr, n: Ipv4.Addr, k: nat)
    requires k <= 32
    ensures IsIpInCidr(Ipv4.FormatAddr(a), CidrText(n, k))
            <==> Ipv4.Contains(Ipv4.Net(n, if k == 0 then 32 else k), a)
  {
    var net := Ipv4.Net(n, if k == 0 then 32 else k);
    var c := (32 - k) % 32;
    assert 32 - net.prefixLen == c;
    var p := Ipv4.Pow2(c);
    assert Ipv4.Contains(net, a) <==> a / p == n / p;
    CidrTextMasks(a, n, k);
    MaskedCompare(a, n, k);
  }

  /** On rendered text, `isIpInCidr` compares the two masked values. */
  lemma CidrTextMasks(a: Ipv4.Addr, n: Ipv4.Addr, k: nat)
    requires k <= 32
    ensures IsIpInCidr(Ipv4.FormatAddr(a), CidrText(n, k))
            <==> BitAnd(Int(a), Int(Mask(Int(k)))) == BitAnd(Int(n), Int(Mask(Int(k))))
  {
    var cidr := CidrText(n, k);
    CidrFields(n, k);
    ParseIntOfNat(k);
    assert Mask(ParseInt(BitsText(cidr))) == Mask(Int(k));
    IpToLongOfFormat(a);
    IpToLongOfFormat(n);
  }

  /** The masked values agree exactly when the addresses share the block
      of size 2^((32 - k) mod 32). */
  lemma MaskedCompare(a: Ipv4.Addr, n: Ipv4.Addr, k: nat)
    requires k <= 32
    ensures var p := Ipv4.Pow2((32 - k) % 32);
            BitAnd(Int(a), Int(Mask(Int(k)))) == BitAnd(Int(n), Int(Mask(Int(k)))) <==> a / p == n / p
  {
    var p := Ipv4.Pow2((32 - k) % 32);
    MaskedValue(a, k);
    MaskedValue(n, k);
    BlockInRange(a, p);
    BlockInRange(n, p);
    JsNumbers.ToInt32Injective((a / p) * p, (n / p) * p);
    SameBlock(a, n, p);
  }

  lemma BlockInRange(x: nat, p: nat)
    requires p >= 1 && x < TWO_32
    ensures 0 <= (x / p) * p <= x
  {
  }

  lemma SameBlock(x: nat, y: nat, p: nat)
    requires p >= 1
    ensures (x / p) * p == (y / p) * p <==> x / p == y / p
  {
    var qx, qy := x / p, y / p;
    if qx < qy {
      Ipv4.MulStrict(qy, qx, p);
    } else if qy < qx {
      Ipv4.MulStrict(qx, qy, p);
    }
  }

  /** The consequence: a "/0" entry covers only its own address, not the
      whole address space. */
  lemma ZeroPrefixMatchesOnlyItself(a: Ipv4.Addr, n: Ipv4.Addr)
    ensures IsIpInCidr(Ipv4.FormatAddr(a), CidrText(n, 0)) <==> a == n
  {
    CidrAsWritten(a, n, 0);
  }

  // ---------------------------------------------------------------------------
  // isIpInCidr as evidently intended
  // ---------------------------------------------------------------------------

  /** The intended range test: a zero prefix length masks nothing in, so
      every address matches. */
  predicate IsIpInCidrIntended(ip: string, cidr: string)
  {
    var bits := ParseInt(BitsText(cidr));
    var mask := if bits == Int(0) then 0 else Mask(bits);
    BitAnd(Int(IpToLong(ip)), Int(mask)) == BitAnd(Int(IpToLong(Split(cidr, '/')[0])), Int(mask))
  }

  /** With that correction every prefix length 0..32 tests containment,
      agreeing with the core's `Ipv4Net::contains`. */
  lemma CidrIntended(a: Ipv4.Addr, n: Ipv4.Addr, k: nat)
    requires k <= 32
    ensures IsIpInCidrIntended(Ipv4.FormatAddr(a), CidrText(n, k)) <==> Ipv4.Contains(Ipv4.Net(n, k), a)
  {
    if k == 0 {
      CidrFields(n, k);
      ParseIntOfNat(k);
      assert AndBits(IpToLong(Ipv4.FormatAddr(a)), 0, 32) == 0 by {
        AndZero(IpToLong(Ipv4.FormatAddr(a)), 32);
      }
      assert AndBits(IpToLong(Ipv4.FormatAddr(n)), 0, 32) == 0 by {
        AndZero(IpToLong(Ipv4.FormatAddr(n)), 32);
      }
      Ipv4.ZeroPrefixContainsAll(Ipv4.Net(n, 0), a);
    } else {
      CidrAsWritten(a, n, k);
      CidrFields(n, k);
      ParseIntOfNat(k);
    }
  }

  lemma {:induction false} AndZero(x: nat, n: nat)
    ensures AndBits(x, 0, n) == 0
  {
    if n > 0 {
      AndZero(x / 2, n - 1);
    }
  }

  // ---------------------------------------------------------------------------
  // isIpInList against the core's is_ip_in_list
  // ---------------------------------------------------------------------------

  /** An entry written as the core also reads it: a rendered address, or
      a rendered address with a prefix length 1..32. */
  predicate Canonical(entry: string)
  {
    || (Ipv4.ParseAddr(entry).Some? && entry == Ipv4.FormatAddr(Ipv4.ParseAddr(entry).value))
    || (var parts := Split(entry, '/');
        |parts| == 2 && Ipv4.ParseAddr(parts[0]).Some?
        && parts[0] == Ipv4.FormatAddr(Ipv4.ParseAddr(parts[0]).value)
        && AllDigits(parts[1]) && parts[1] != ""
        && 1 <= DigitsValue(parts[1]) <= 32 && parts[1] == NatToString(DigitsValue(parts[1])))
  }

  lemma EntryAgrees(a: Ipv4.Addr, entry: string)
    requires Canonical(entry)
    ensures EntryHit(Ipv4.FormatAddr(a), entry) <==> IpUtils.EntryMatches(entry, a)
  {
    Ipv4.ParseFormat(a);
    if Ipv4.ParseAddr(entry).Some? && entry == Ipv4.FormatAddr(Ipv4.ParseAddr(entry).value) {
      var n := Ipv4.ParseAddr(entry).value;
      IpUtils.AddrTextHasNoSlash(entry);
      Ipv4.FormatInjective(a, n);
    } else {
      var parts := Split(entry, '/');
      var n := Ipv4.ParseAddr(parts[0]).value;
      var k := DigitsValue(parts[1]);
      JoinSplit(entry, '/');
      assert entry == CidrText(n, k);
      CidrFields(n, k);
      assert '/' in entry by {
        assert entry[|Ipv4.FormatAddr(n)|] == '/';
      }
      assert NatToString(k) == parts[1];
      assert Ipv4.ParseNet(entry) == Some(Ipv4.Net(n, k));
      CidrAsWritten(a, n, k);
    }
  }

  /** On canonical entries, with no "/0" among them, the API's ignore test
      and the core's agree. */
  lemma ListAgreesWithCore(a: Ipv4.Addr, entries: seq<string>)
    requires forall i :: 0 <= i < |entries| ==> Canonical(entries[i])
    ensures IsIpInList(Ipv4.FormatAddr(a), entries) <==> IpUtils.IsIpInList(Ipv4.FormatAddr(a), entries)
  {
    Ipv4.ParseFormat(a);
    forall i | 0 <= i < |entries|
      ensures EntryHit(Ipv4.FormatAddr(a), entries[i]) <==> IpUtils.EntryMatches(entries[i], a)
    {
      EntryAgrees(a, entries[i]);
    }
  }
}
