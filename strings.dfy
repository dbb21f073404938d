/** Text helpers shared by the Rust and TypeScript parts of the model:
    splitting on a separator character, substring search and replacement,
    and decimal rendering and parsing of unsigned integers. */
module Strings {
  import opened Wrappers
  import opened Ints

  predicate IsDigit(c: char) { '0' <= c <= '9' }

  predicate AllDigits(s: string) { forall i :: 0 <= i < |s| ==> IsDigit(s[i]) }

  function DigitValue(c: char): nat
    requires IsDigit(c)
  {
    c as nat - '0' as nat
  }

  function DigitChar(d: nat): (c: char)
    requires d < 10
    ensures IsDigit(c) && DigitValue(c) == d
  {
    ('0' as nat + d) as char
  }

  // ---------------------------------------------------------------------------
  // Splitting (Rust `str::split(char)`, JavaScript `split` on a one-character string)
  // ---------------------------------------------------------------------------

  /** The pieces of `s` between occurrences of `sep`; "" gives [""] and a
      separator at either end gives an empty first or last piece. */
  function Split(s: string, sep: char): (parts: seq<string>)
    ensures |parts| >= 1
    ensures forall i :: 0 <= i < |parts| ==> sep !in parts[i]
  {
    if |s| == 0 then [""]
    else if s[0] == sep then [""] + Split(s[1..], sep)
    else
      var rest := Split(s[1..], sep);
      [[s[0]] + rest[0]] + rest[1..]
  }

  /** The inverse of Split: the pieces glued back with the separator. */
  function Join(parts: seq<string>, sep: char): string
    requires |parts| >= 1
  {
    if |parts| == 1 then parts[0] else parts[0] + [sep] + Join(parts[1..], sep)
  }

  /** Splitting loses nothing: joining the pieces gives back the text. */
  lemma {:induction false} JoinSplit(s: string, sep: char)
    ensures Join(Split(s, sep), sep) == s
  {
    if |s| == 0 {
    } else if s[0] == sep {
      JoinSplit(s[1..], sep);
      assert Split(s, sep)[1..] == Split(s[1..], sep);
      assert s == [] + [sep] + s[1..];
    } else {
      JoinSplit(s[1..], sep);
      var rest := Split(s[1..], sep);
      var parts := Split(s, sep);
      assert parts[0] == [s[0]] + rest[0];
      if |rest| == 1 {
        assert s == [s[0]] + s[1..];
      } else {
        assert parts[1..] == rest[1..];
        assert Join(rest, sep) == rest[0] + [sep] + Join(rest[1..], sep);
        assert s == [s[0]] + s[1..];
      }
    }
  }

  lemma {:induction false} SplitNoSep(a: string, sep: char)
    requires sep !in a
    ensures Split(a, sep) == [a]
  {
    if |a| > 0 {
      SplitNoSep(a[1..], sep);
      assert [a[0]] + a[1..] == a;
    }
  }

  /** A piece free of the separator followed by the separator is cut off
      exactly: the key fact behind every key round trip of the ledger. */
  lemma {:induction false} SplitCons(a: string, sep: char, b: string)
    requires sep !in a
    ensures Split(a + [sep] + b, sep) == [a] + Split(b, sep)
  {
    if |a| == 0 {
      assert a + [sep] + b == [sep] + b;
      assert ([sep] + b)[1..] == b;
    } else {
      SplitCons(a[1..], sep, b);
      assert (a + [sep] + b)[1..] == a[1..] + [sep] + b;
      assert [a[0]] + a[1..] == a;
    }
  }

  /** Each separator adds one piece: the pieces of `a`, then those of `b`. */
  lemma {:induction false} SplitLengthConcat(a: string, sep: char, b: string)
    ensures |Split(a + [sep] + b, sep)| == |Split(a, sep)| + |Split(b, sep)|
  {
    if |a| == 0 {
      assert a + [sep] + b == [sep] + b;
      assert ([sep] + b)[1..] == b;
    } else {
      SplitLengthConcat(a[1..], sep, b);
      assert (a + [sep] + b)[1..] == a[1..] + [sep] + b;
    }
  }

  /** Text holding the separator splits into at least two pieces. */
  lemma {:induction false} SepSplitsInTwo(x: string, sep: char)
    requires sep in x
    ensures |Split(x, sep)| >= 2
  {
    if x[0] != sep {
      assert sep in x[1..] by {
        var i :| 0 <= i < |x| && x[i] == sep;
        assert x[1..][i - 1] == sep;
      }
      SepSplitsInTwo(x[1..], sep);
    }
  }

  /** Splitting a join of separator-free pieces gives the pieces back. */
  lemma {:induction false} SplitJoin(parts: seq<string>, sep: char)
    requires |parts| >= 1
    requires forall i :: 0 <= i < |parts| ==> sep !in parts[i]
    ensures Split(Join(parts, sep), sep) == parts
  {
    if |parts| == 1 {
      SplitNoSep(parts[0], sep);
    } else {
      SplitJoin(parts[1..], sep);
      SplitCons(parts[0], sep, Join(parts[1..], sep));
      assert [parts[0]] + parts[1..] == parts;
    }
  }

  /** Joining adds no character but the separator. */
  lemma {:induction false} CharNotInJoin(parts: seq<string>, sep: char, c: char)
    requires |parts| >= 1 && c != sep
    requires forall i :: 0 <= i < |parts| ==> c !in parts[i]
    ensures c !in Join(parts, sep)
  {
    if |parts| > 1 {
      CharNotInJoin(parts[1..], sep, c);
    }
  }

  /** A four-piece join written out. */
  lemma Join4(a: string, b: string, c: string, d: string, sep: char)
    ensures Join([a, b, c, d], sep) == (a + [sep]) + ((b + [sep]) + ((c + [sep]) + d))
  {
    assert [a, b, c, d][1..] == [b, c, d];
    assert [b, c, d][1..] == [c, d];
    assert [c, d][1..] == [d];
    assert Join([c, d], sep) == (c + [sep]) + d;
    assert Join([b, c, d], sep) == (b + [sep]) + ((c + [sep]) + d);
  }

  // ---------------------------------------------------------------------------
  // Prefixes, substrings and replacement (Rust `str::contains` / `str::replace`)
  // ---------------------------------------------------------------------------

  predicate HasPrefix(s: string, p: string) { |p| <= |s| && s[..|p|] == p }

  /** `p` occurs in `s` at some position. */
  predicate Contains(s: string, p: string)
    decreases |s|
  {
    HasPrefix(s, p) || (|s| > 0 && Contains(s[1..], p))
  }

  lemma {:induction false} ContainsAt(s: string, p: string, i: nat)
    requires i + |p| <= |s| && s[i..i + |p|] == p
    ensures Contains(s, p)
    decreases i
  {
    if i > 0 {
      assert s[1..][i - 1..i - 1 + |p|] == s[i..i + |p|];
      ContainsAt(s[1..], p, i - 1);
    }
  }

  /** Every non-overlapping occurrence of `from`, scanned left to right, is
      replaced by `to`. */
  function ReplaceAll(s: string, from: string, to: string): string
    requires |from| > 0
    decreases |s|
  {
    if HasPrefix(s, from) then to + ReplaceAll(s[|from|..], from, to)
    else if |s| == 0 then ""
    else [s[0]] + ReplaceAll(s[1..], from, to)
  }

  lemma {:induction false} ReplaceAllAbsent(s: string, from: string, to: string)
    requires |from| > 0 && !Contains(s, from)
    ensures ReplaceAll(s, from, to) == s
    decreases |s|
  {
    if |s| > 0 {
      ReplaceAllAbsent(s[1..], from, to);
      assert [s[0]] + s[1..] == s;
    }
  }

  /** Side conditions under which a replacement cannot re-create the
      pattern it removes: the pattern's first character starts no other
      place in the pattern and occurs nowhere in the replacement, and the
      replacement starts with a character the pattern does not contain. */
  predicate ReplacementIsClean(from: string, to: string)
  {
    && |from| > 0 && |to| > 0
    && from[0] !in to
    && to[0] !in from
    && (forall k :: 1 <= k < |from| ==> from[k] != from[0])
  }

  /** A first character that differs rules a prefix out. */
  lemma ConsNotPrefix(c: char, t: string, p: string)
    requires |p| > 0 && (c != p[0] || !HasPrefix(t, p[1..]))
    ensures !HasPrefix([c] + t, p)
  {
    if |p| <= |t| + 1 {
      assert ([c] + t)[..|p|] == [c] + t[..|p| - 1];
    }
    assert p == [p[0]] + p[1..];
  }

  /** If `s` starts with the first character of `p` but not with `p`, its
      tail does not start with the rest of `p`, and `p` is longer than one. */
  lemma NotPrefixTail(s: string, p: string)
    requires |s| > 0 && |p| > 0 && s[0] == p[0] && !HasPrefix(s, p)
    ensures |p| > 1 && !HasPrefix(s[1..], p[1..])
  {
    assert s[..1] == [s[0]];
    if |p| <= |s| {
      assert s[..|p|] == [s[0]] + s[1..][..|p| - 1];
    }
    assert p == [p[0]] + p[1..];
  }

  /** If `s` does not start with `p` (a string made of the pattern's
      non-initial characters) then neither does its replacement. */
  lemma {:induction false} ReplaceKeepsNoPrefix(s: string, from: string, to: string, p: string)
    requires ReplacementIsClean(from, to)
    requires |p| > 0 && forall k :: 0 <= k < |p| ==> p[k] != from[0] && p[k] in from
    requires !HasPrefix(s, p)
    ensures !HasPrefix(ReplaceAll(s, from, to), p)
    decreases |s|
  {
    var r := ReplaceAll(s, from, to);
    if HasPrefix(s, from) {
      assert r == to + ReplaceAll(s[|from|..], from, to);
      ConsNotPrefix(to[0], r[1..], p);
      assert r == [to[0]] + r[1..];
    } else if |s| == 0 {
    } else {
      var t := ReplaceAll(s[1..], from, to);
      assert r == [s[0]] + t;
      if s[0] == p[0] {
        NotPrefixTail(s, p);
        ReplaceKeepsNoPrefix(s[1..], from, to, p[1..]);
      }
      ConsNotPrefix(s[0], t, p);
    }
  }

  /** Replacement is total: the result holds no occurrence of the pattern. */
  lemma {:induction false} ReplaceAllRemovesAll(s: string, from: string, to: string)
    requires ReplacementIsClean(from, to)
    ensures !Contains(ReplaceAll(s, from, to), from)
    decreases |s|
  {
    var r := ReplaceAll(s, from, to);
    if HasPrefix(s, from) {
      var rest := s[|from|..];
      ReplaceAllRemovesAll(rest, from, to);
      NoOccurrenceAfterCleanHead(to, ReplaceAll(rest, from, to), from);
    } else if |s| == 0 {
    } else {
      ReplaceAllRemovesAll(s[1..], from, to);
      var t := ReplaceAll(s[1..], from, to);
      assert r == [s[0]] + t;
      assert r[1..] == t;
      if s[0] == from[0] {
        NotPrefixTail(s, from);
        ReplaceKeepsNoPrefix(s[1..], from, to, from[1..]);
      }
      ConsNotPrefix(s[0], t, from);
    }
  }

  /** A head free of the pattern's first character cannot start an
      occurrence, so `head + tail` contains the pattern only if `tail` does. */
  lemma {:induction false} NoOccurrenceAfterCleanHead(head: string, tail: string, from: string)
    requires |from| > 0 && from[0] !in head && !Contains(tail, from)
    ensures !Contains(head + tail, from)
    decreases |head|
  {
    if |head| == 0 {
      assert head + tail == tail;
    } else {
      NoOccurrenceAfterCleanHead(head[1..], tail, from);
      assert (head + tail)[1..] == head[1..] + tail;
      assert (head + tail)[0] == head[0];
    }
  }

  // ---------------------------------------------------------------------------
  // Decimal numbers
  // ---------------------------------------------------------------------------

  /** The decimal rendering of `n` (Rust `Display` for integers). */
  function NatToString(n: nat): (s: string)
    ensures |s| >= 1 && AllDigits(s)
    ensures n < 10 <==> |s| == 1
    ensures s[0] != '0' || n == 0
  {
    if n < 10 then [DigitChar(n)] else NatToString(n / 10) + [DigitChar(n % 10)]
  }

  /** The value of a string of decimal digits. */
  function DigitsValue(s: string): nat
    requires AllDigits(s)
  {
    if |s| == 0 then 0 else DigitsValue(s[..|s| - 1]) * 10 + DigitValue(s[|s| - 1])
  }

  lemma {:induction false} DigitsValueOfNatToString(n: nat)
    ensures DigitsValue(NatToString(n)) == n
  {
    var s := NatToString(n);
    if n >= 10 {
      DigitsValueOfNatToString(n / 10);
      assert s[..|s| - 1] == NatToString(n / 10);
    }
  }

  /** A string of k digits denotes a value below 10^k. */
  lemma {:induction false} DigitsValueBound(s: string)
    requires AllDigits(s)
    ensures DigitsValue(s) < Pow10(|s|)
  {
    if |s| > 0 {
      DigitsValueBound(s[..|s| - 1]);
    }
  }

  function Pow10(k: nat): (r: nat)
    ensures r >= 1
  {
    if k == 0 then 1 else 10 * Pow10(k - 1)
  }

  /** Rust's `str::parse::<u64>`: an optional '+' followed by at least one
      ASCII digit, with a value that fits in 64 bits; anything else is an
      error. */
  function ParseU64(s: string): (r: Option<u64>)
  {
    var digits := if |s| > 0 && s[0] == '+' then s[1..] else s;
    if |digits| == 0 || !AllDigits(digits) then None
    else if DigitsValue(digits) > U64_MAX then None
    else Some(DigitsValue(digits))
  }

  /** Rendering a 64-bit value and parsing it back gives the value. */
  lemma ParseU64OfNatToString(n: u64)
    ensures ParseU64(NatToString(n)) == Some(n)
  {
    DigitsValueOfNatToString(n);
  }
}
