/** The part of JavaScript's number semantics the API services rely on:
    `Number(text)`, `parseInt(text)`, the 32-bit conversions ToInt32 and
    ToUint32 and the bitwise operators built on them (`<<`, `~`, `&`,
    `>>> 0`). Every value that reaches these operators in the services is
    an integer, NaN or `undefined`, so a number is an unbounded integer or
    NaN, and `undefined` is NaN (it converts to NaN in every operator
    used). */
module JsNumbers {
  import opened Strings
  import Ipv4

  const TWO_32: int := 0x1_0000_0000
  const TWO_31: int := 0x8000_0000

  datatype Num = Int(v: int) | NaN

  /** ToUint32: NaN becomes 0 and an integer is reduced modulo 2^32. */
  function ToUint32(x: Num): (r: int)
    ensures 0 <= r < TWO_32
    ensures x.Int? && 0 <= x.v < TWO_32 ==> r == x.v
  {
    match x
    case NaN => 0
    case Int(v) => v % TWO_32
  }

  /** ToInt32: the same 32 bits read as a two's-complement integer. */
  function ToInt32(x: Num): (r: int)
    ensures -TWO_31 <= r < TWO_31
    ensures (r + TWO_32) % TWO_32 == ToUint32(x)
    ensures x.Int? && -TWO_31 <= x.v < TWO_31 ==> r == x.v
  {
    var u := ToUint32(x);
    if u >= TWO_31 then u - TWO_32 else u
  }

  /** `+` and `-` on numbers: NaN absorbs everything. */
  function Add(x: Num, y: Num): (r: Num)
    ensures r.NaN? <==> x.NaN? || y.NaN?
  {
    if x.NaN? || y.NaN? then NaN else Int(x.v + y.v)
  }

  function Sub(x: Num, y: Num): (r: Num)
    ensures r.NaN? <==> x.NaN? || y.NaN?
  {
    if x.NaN? || y.NaN? then NaN else Int(x.v - y.v)
  }

  /** `x << y`: only the low five bits of the count are used. */
  function ShiftLeft(x: Num, y: Num): int
  {
    ToInt32(Int(ToInt32(x) * Ipv4.Pow2(ToUint32(y) % 32)))
  }

  /** `~x`. */
  function BitNot(x: Num): int
  {
    -ToInt32(x) - 1
  }

  /** The AND of the low `n` bits of two non-negative integers. */
  function AndBits(x: nat, y: nat, n: nat): nat
  {
    if n == 0 then 0 else 2 * AndBits(x / 2, y / 2, n - 1) + (x % 2) * (y % 2)
  }

  /** `x & y`. */
  function BitAnd(x: Num, y: Num): int
  {
    ToInt32(Int(AndBits(ToUint32(x), ToUint32(y), 32)))
  }

  // ---------------------------------------------------------------------------
  // Text to number
  // ---------------------------------------------------------------------------

  /** `Number(s)` on the texts the services feed it: the empty text is 0,
      an optionally signed run of decimal digits is its value, and any
      other text is NaN. */
  function NumberOf(s: string): (r: Num)
    ensures AllDigits(s) ==> r == Int(if s == "" then 0 else DigitsValue(s))
  {
    if s == "" then Int(0)
    else if AllDigits(s) then Int(DigitsValue(s))
    else if |s| >= 2 && s[0] == '-' && AllDigits(s[1..]) then Int(-(DigitsValue(s[1..]) as int))
    else if |s| >= 2 && s[0] == '+' && AllDigits(s[1..]) then Int(DigitsValue(s[1..]))
    else NaN
  }

  /** The longest run of digits at the start of `s`. */
  function DigitPrefix(s: string): (d: string)
    ensures AllDigits(d) && d <= s
    ensures d == s || !IsDigit(s[|d|])
  {
    if |s| == 0 || !IsDigit(s[0]) then "" else [s[0]] + DigitPrefix(s[1..])
  }

  /** `parseInt(s)` in base ten: an optional sign, then the leading digits;
      text with no leading digit is NaN and anything after the digits is
      ignored. */
  function ParseInt(s: string): (r: Num)
    ensures r.Int? <==> DigitPrefix(if |s| > 0 && (s[0] == '-' || s[0] == '+') then s[1..] else s) != ""
  {
    var body := if |s| > 0 && (s[0] == '-' || s[0] == '+') then s[1..] else s;
    var d := DigitPrefix(body);
    if d == "" then NaN
    else if |s| > 0 && s[0] == '-' then Int(-(DigitsValue(d) as int))
    else Int(DigitsValue(d))
  }

  /** A rendered natural number parses back to itself. */
  lemma ParseIntOfNat(n: nat)
    ensures ParseInt(NatToString(n)) == Int(n)
  {
    var s := NatToString(n);
    DigitsValueOfNatToString(n);
    AllDigitsPrefix(s);
  }

  /** On a text of digits only, the digit prefix is the whole text. */
  lemma {:induction false} AllDigitsPrefix(s: string)
    requires AllDigits(s)
    ensures DigitPrefix(s) == s
  {
    if |s| > 0 {
      AllDigitsPrefix(s[1..]);
    }
  }

  // ---------------------------------------------------------------------------
  // Bit-level facts
  // ---------------------------------------------------------------------------

  lemma {:induction false} Pow2Monotone(i: nat, j: nat)
    requires i <= j
    ensures Ipv4.Pow2(i) <= Ipv4.Pow2(j)
  {
    if i < j {
      Pow2Monotone(i, j - 1);
    }
  }

  lemma DivDiv2(x: nat, c: nat)
    requires c >= 1
    ensures (x / 2) / Ipv4.Pow2(c - 1) == x / Ipv4.Pow2(c)
  {
    var p := Ipv4.Pow2(c - 1);
    var q := (x / 2) / p;
    assert q * p <= x / 2 < q * p + p;
    assert 2 * (q * p) <= x < 2 * (q * p) + 2 * p;
    assert 2 * (q * p) == q * (2 * p);
    Ipv4.DivBlock(x, 2 * p, q);
  }

  /** ANDing with a mask whose top `n - c` bits are set clears exactly the
      low `c` bits. */
  lemma {:induction false} AndHighMask(x: nat, n: nat, c: nat)
    requires c <= n && x < Ipv4.Pow2(n)
    ensures Ipv4.Pow2(c) <= Ipv4.Pow2(n)
    ensures AndBits(x, Ipv4.Pow2(n) - Ipv4.Pow2(c), n) == (x / Ipv4.Pow2(c)) * Ipv4.Pow2(c)
    decreases n, 1
  {
    Pow2Monotone(c, n);
    if n > 0 {
      if c == 0 {
        AllOnesCase(x, n);
      } else {
        HighMaskCase(x, n, c);
      }
    }
  }

  /** The all-ones mask (`c == 0`) keeps every bit. */
  lemma {:induction false} AllOnesCase(x: nat, n: nat)
    requires n >= 1 && x < Ipv4.Pow2(n)
    ensures AndBits(x, Ipv4.Pow2(n) - 1, n) == x
    decreases n, 0
  {
    HalfBelow(x, n);
    AndHighMask(x / 2, n - 1, 0);
    AllOnesStep(x, n);
  }

  /** A mask with `c >= 1` low bits clear drops the lowest bit and the
      next `c - 1` of the halved value. */
  lemma {:induction false} HighMaskCase(x: nat, n: nat, c: nat)
    requires 1 <= c <= n && x < Ipv4.Pow2(n) && Ipv4.Pow2(c) <= Ipv4.Pow2(n)
    ensures AndBits(x, Ipv4.Pow2(n) - Ipv4.Pow2(c), n) == (x / Ipv4.Pow2(c)) * Ipv4.Pow2(c)
    decreases n, 0
  {
    HalfBelow(x, n);
    AndHighMask(x / 2, n - 1, c - 1);
    HighMaskStep(x, n, c);
  }

  lemma HalfBelow(x: nat, n: nat)
    requires n >= 1 && x < Ipv4.Pow2(n)
    ensures x / 2 < Ipv4.Pow2(n - 1)
  {
    assert Ipv4.Pow2(n) == 2 * Ipv4.Pow2(n - 1);
  }

  lemma AllOnesStep(x: nat, n: nat)
    requires n >= 1
    requires AndBits(x / 2, Ipv4.Pow2(n - 1) - 1, n - 1) == x / 2
    ensures AndBits(x, Ipv4.Pow2(n) - 1, n) == x
  {
    var h := Ipv4.Pow2(n - 1) - 1;
    var m := Ipv4.Pow2(n) - 1;
    assert m == 2 * h + 1;
    assert AndBits(x, m, n) == 2 * AndBits(x / 2, h, n - 1) + (x % 2) * 1;
  }

  lemma HighMaskStep(x: nat, n: nat, c: nat)
    requires 1 <= c <= n
    requires Ipv4.Pow2(c - 1) <= Ipv4.Pow2(n - 1)
    requires AndBits(x / 2, Ipv4.Pow2(n - 1) - Ipv4.Pow2(c - 1), n - 1)
             == ((x / 2) / Ipv4.Pow2(c - 1)) * Ipv4.Pow2(c - 1)
    ensures AndBits(x, Ipv4.Pow2(n) - Ipv4.Pow2(c), n) == (x / Ipv4.Pow2(c)) * Ipv4.Pow2(c)
  {
    var p := Ipv4.Pow2(c - 1);
    var h := Ipv4.Pow2(n - 1) - p;
    var m := Ipv4.Pow2(n) - Ipv4.Pow2(c);
    assert m == 2 * h;
    assert AndBits(x, m, n) == 2 * AndBits(x / 2, h, n - 1) + (x % 2) * 0;
    var q := (x / 2) / p;
    DivDiv2(x, c);
    Twice(q, p);
  }

  lemma Twice(q: int, p: int)
    ensures 2 * (q * p) == q * (2 * p)
  {
  }

  /** ToInt32 tells apart the unsigned 32-bit values. */
  lemma ToInt32Injective(a: int, b: int)
    requires 0 <= a < TWO_32 && 0 <= b < TWO_32
    ensures ToInt32(Int(a)) == ToInt32(Int(b)) <==> a == b
  {
  }
}
