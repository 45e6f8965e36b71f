/** Text to a 64-bit integer: strtoi64. */
module ParseInt {
  import opened Common

  const MIN64: int := -0x8000_0000_0000_0000
  const MAX64: int := 0x7fff_ffff_ffff_ffff

  newtype int64 = x: int | -0x8000_0000_0000_0000 <= x <= 0x7fff_ffff_ffff_ffff

  // ----- what a text says

  predicate IsSpace(c: char) { c == ' ' || '\t' <= c <= '\r' }

  /** The value of a digit or a letter, or -1. */
  function DigitVal(c: char): (r: int)
    ensures -1 <= r < 36
  {
    if '0' <= c <= '9' then c as int - '0' as int
    else if 'A' <= c <= 'Z' then c as int - 'A' as int + 10
    else if 'a' <= c <= 'z' then c as int - 'a' as int + 10
    else -1
  }

  predicate IsDigit(c: char, base: int) { 0 <= DigitVal(c) < base }

  /** A string up to and with its terminator. */
  predicate Terminated(s: string) { s != [] && s[|s| - 1] == '\0' }

  /** The first character from i on that is not white space. */
  function SkipSpace(s: string, i: nat): (r: nat)
    requires Terminated(s) && i < |s|
    ensures i <= r < |s| && !IsSpace(s[r]) && forall k :: i <= k < r ==> IsSpace(s[k])
    decreases |s| - i
  {
    if IsSpace(s[i]) then SkipSpace(s, i + 1) else i
  }

  predicate IsSign(c: char) { c == '-' || c == '+' }

  /** A hexadecimal number may say so. */
  predicate HasPrefix(s: string, i: nat, base: nat) {
    (base == 0 || base == 16) && i + 2 < |s| && s[i] == '0' && (s[i + 1] == 'x' || s[i + 1] == 'X')
  }

  /** Where the digits end that start at i. */
  function RunEnd(s: string, i: nat, base: nat): (r: nat)
    requires Terminated(s) && i < |s|
    ensures i <= r < |s| && !IsDigit(s[r], base) && forall k :: i <= k < r ==> IsDigit(s[k], base)
    decreases |s| - i
  {
    if IsDigit(s[i], base) then RunEnd(s, i + 1, base) else i
  }

  function Values(s: string): seq<int> {
    if s == [] then [] else Values(s[..|s| - 1]) + [DigitVal(s[|s| - 1])]
  }

  lemma ValuesNext(s: string, c: char)
    ensures Values(s + [c]) == Values(s) + [DigitVal(c)]
  {
    assert (s + [c])[..|s|] == s;
  }

  /** The parts of a text: its sign, its base, and where its digits are. */
  datatype Parts = Parts(neg: bool, base: nat, start: nat, end: nat)

  function Read(s: string, base: nat): (r: Parts)
    requires Terminated(s)
    ensures r.start <= r.end < |s|
  {
    var i := SkipSpace(s, 0);
    var neg := s[i] == '-';
    var j := if IsSign(s[i]) then i + 1 else i;
    if HasPrefix(s, j, base) then Parts(neg, 16, j + 2, RunEnd(s, j + 2, 16))
    else
      var b := if base != 0 then base else if s[j] == '0' then 8 else 10;
      Parts(neg, b, j, RunEnd(s, j, b))
  }

  /** The number the digits make. */
  function Magnitude(s: string, p: Parts): int
    requires p.start <= p.end <= |s|
  {
    Number(Values(s[p.start..p.end]), p.base)
  }

  function Limit(neg: bool): nat { if neg then -MIN64 else MAX64 }

  /** The signed number, or the end of the range on its side. */
  function Clamped(neg: bool, v: int): (r: int)
    ensures v >= 0 ==> MIN64 <= r <= MAX64
  {
    var w := if v > Limit(neg) then Limit(neg) else v;
    if neg then -w else w
  }

  // ----- the limits

  /** Division and remainder of the machine: the quotient goes toward zero, or down. */
  function Quotient(n: int, d: nat, down: bool): int
    requires d > 0
  {
    if n >= 0 || down then n / d else -((-n) / d)
  }

  function Remainder(n: int, d: nat, down: bool): int
    requires d > 0
  {
    n - Quotient(n, d, down) * d
  }

  /** The limit of the magnitude divided by the base, with the sign, and what is left. */
  ghost predicate AtLimit(neg: bool, base: int, cutoff: int64, cutlim: int) {
    base > 0 && cutoff as int == (if neg then -1 else 1) * (Limit(neg) / base) && cutlim == Limit(neg) % base
  }

  lemma Multiple(k: int, d: int)
    requires d > 0
    ensures k > 0 ==> k * d >= d
    ensures k < 0 ==> k * d <= -d
  {
  }

  lemma DivUnique(n: int, d: int, q: int, r: int)
    requires d > 0 && 0 <= r < d && n == q * d + r
    ensures n / d == q
  {
    var k := q - n / d;
    assert n == n / d * d + n % d;
    assert k * d == n % d - r;
    Multiple(k, d);
  }

  /** The quotient that goes down is one lower on the negative side, unless nothing is left. */
  lemma DivisionIs(n: int, d: int)
    requires n >= 0 && d > 0
    ensures n == n / d * d + n % d
    ensures n % d == 0 ==> (-n) / d == -(n / d)
    ensures n % d > 0 ==> (-n) / d == -(n / d) - 1
  {
    var q, r := n / d, n % d;
    if r == 0 {
      assert -n == (-q) * d + 0;
      DivUnique(-n, d, -q, 0);
    } else {
      assert -n == (-q - 1) * d + (d - r);
      DivUnique(-n, d, -q - 1, d - r);
    }
  }

  /** On the negative side the remainder and the quotient are one of two pairs. */
  lemma MachineDivision(n: int, d: nat, down: bool)
    requires n >= 0 && d > 0
    ensures Quotient(n, d, down) == n / d && Remainder(n, d, down) == n % d
    ensures var q, r := Quotient(-n, d, down), Remainder(-n, d, down);
            || (r <= 0 && q == -(n / d) && r == -(n % d))
            || (r > 0 && q + 1 == -(n / d) && r - d == -(n % d))
  {
    DivisionIs(n, d);
    assert (-(n / d) - 1) * d == -(n / d * d) - d;
  }

  /** Either division gives the limit of the magnitude divided by the base, and what is left. */
  method Cutoffs(neg: bool, base: nat, down: bool) returns (cutoff: int64, cutlim: int)
    requires 2 <= base <= 36
    ensures AtLimit(neg, base, cutoff, cutlim)
  {
    var c: int64 := if neg then -0x7fff_ffff_ffff_ffff - 1 else 0x7fff_ffff_ffff_ffff;
    MachineDivision(Limit(neg), base, down);
    QuotientBound(Limit(neg), base);
    cutlim := Remainder(c as int, base, down);
    var q := Quotient(c as int, base, down);
    if neg {
      if cutlim > 0 {
        cutlim := cutlim - base;
        q := q + 1;
      }
      cutlim := -cutlim;
    }
    cutoff := q as int64;
  }

  lemma QuotientBound(n: int, d: int)
    requires n >= 0 && d >= 2
    ensures 0 <= n / d <= n
  {
    Grows(n / d, d);
    assert n == n / d * d + n % d;
  }

  /** A digit more is too much exactly if the number is over the quotient, or on it and the digit over the rest. */
  lemma CutoffExact(v: nat, c: nat, base: nat, limit: nat)
    requires base > 0 && c < base
    ensures Over(v, c, limit / base, limit % base) <==> v * base + c > limit
  {
    DivisionIs(limit, base);
    OverIs(v, c, limit / base, limit % base, base);
  }

  lemma OverIs(v: int, c: int, q: int, r: int, base: int)
    requires 0 <= c < base && 0 <= r < base
    ensures Over(v, c, q, r) <==> v * base + c > q * base + r
  {
    if v > q { Step(q, v, base); }
    if v < q { Step(v, q, base); }
  }

  lemma Step(a: int, b: int, base: int)
    requires a < b && base > 0
    ensures a * base + base <= b * base
  {
    Multiple(b - a, base);
    assert (b - a) * base == b * base - a * base;
  }

  // ----- the conversion

  /** The accumulator after some digits: the number so far, or the end of the range once it was passed. */
  ghost predicate Holds(neg: bool, v: int, count: nat, acc: int64, any: int) {
    && v >= 0
    && acc as int == Clamped(neg, v)
    && (any < 0 <==> v > Limit(neg))
    && (any == 0 <==> count == 0)
  }

  /** The test of the limits, for a number v that is still within them. */
  predicate Over(v: int, c: int, q: int, r: int) { v > q || (v == q && c > r) }

  lemma Grows(v: int, base: int)
    requires base >= 2 && v >= 0
    ensures v <= v * base && (-v) * base == -(v * base)
  {
    Multiple(base - 1, v + 1);
  }

  method Negative(base: int64, cutoff: int64, cutlim: int, c: int64, acc0: int64, ghost w: int)
    returns (acc: int64, any: int)
    requires 0 <= c && acc0 <= 0 && w == acc0 as int * base as int && w <= acc0 as int
    requires Over(-(acc0 as int), c as int, -(cutoff as int), cutlim) <==> -w + c as int > Limit(true)
    ensures acc as int == Clamped(true, -w + c as int)
    ensures any == if -w + c as int > Limit(true) then -1 else 1
  {
    acc := acc0;
    if acc < cutoff || (acc == cutoff && c as int > cutlim) {
      any := -1;
      acc := -0x7fff_ffff_ffff_ffff - 1;
    } else {
      any := 1;
      acc := acc * base;
      acc := acc - c;
    }
  }

  method Positive(base: int64, cutoff: int64, cutlim: int, c: int64, acc0: int64, ghost w: int)
    returns (acc: int64, any: int)
    requires 0 <= c && acc0 >= 0 && w == acc0 as int * base as int && w >= acc0 as int
    requires Over(acc0 as int, c as int, cutoff as int, cutlim) <==> w + c as int > Limit(false)
    ensures acc as int == Clamped(false, w + c as int)
    ensures any == if w + c as int > Limit(false) then -1 else 1
  {
    acc := acc0;
    if acc > cutoff || (acc == cutoff && c as int > cutlim) {
      any := -1;
      acc := 0x7fff_ffff_ffff_ffff;
    } else {
      any := 1;
      acc := acc * base;
      acc := acc + c;
    }
  }

  /** One digit: either it passes the limit, or the number takes it without leaving the range. */
  method Accumulate(neg: bool, base: int64, cutoff: int64, cutlim: int, c: int64, acc0: int64, any0: int,
                    ghost v: int, ghost count: nat) returns (acc: int64, any: int)
    requires 2 <= base <= 36 && 0 <= c < base
    requires AtLimit(neg, base as int, cutoff, cutlim)
    requires Holds(neg, v, count, acc0, any0)
    ensures Holds(neg, v * base as int + c as int, count + 1, acc, any)
  {
    Grows(v, base as int);
    CutoffExact(v, c as int, base as int, Limit(neg));
    if any0 < 0 {
      return acc0, any0;
    }
    if neg {
      acc, any := Negative(base, cutoff, cutlim, c, acc0, (-v) * base as int);
    } else {
      acc, any := Positive(base, cutoff, cutlim, c, acc0, v * base as int);
    }
  }

  /** White space, a sign, and what says the base. */
  method Header(s: string, base0: nat) returns (neg: bool, base: nat, i: nat)
    requires Terminated(s)
    ensures i < |s| && Read(s, base0) == Parts(neg, base, i, RunEnd(s, i, base))
  {
    i := Blanks(s);
    neg := s[i] == '-';
    if IsSign(s[i]) {
      i := i + 1;
    }
    base := base0;
    if (base == 0 || base == 16) && s[i] == '0' && (s[i + 1] == 'x' || s[i + 1] == 'X') {
      i := i + 2;
      base := 16;
    }
    if base == 0 {
      base := if s[i] == '0' then 8 else 10;
    }
  }

  method Blanks(s: string) returns (i: nat)
    requires Terminated(s)
    ensures i == SkipSpace(s, 0)
  {
    i := 0;
    while IsSpace(s[i])
      invariant i <= SkipSpace(s, 0)
      decreases |s| - i
    {
      SkipBelow(s, i);
      i := i + 1;
    }
    SkipBelow(s, i);
  }

  /** strtoi64: the value of the digits with their sign, held to the range, and where the digits end. */
  method Strtoi64(s: string, base0: nat, down: bool) returns (acc: int64, end: nat)
    requires Terminated(s) && (base0 == 0 || 2 <= base0 <= 36)
    ensures var p := Read(s, base0);
            && acc as int == Clamped(p.neg, Magnitude(s, p))
            && end == if p.start < p.end then p.end else 0
  {
    var neg, base, i := Header(s, base0);
    acc, end := Digits(s, i, neg, base, down);
  }

  lemma SkipBelow(s: string, i: nat)
    requires Terminated(s) && i <= SkipSpace(s, 0)
    ensures i < SkipSpace(s, 0) <==> IsSpace(s[i])
  {
  }

  /** The digits from start on, one after the other. */
  method Digits(s: string, start: nat, neg: bool, base: nat, down: bool) returns (acc: int64, end: nat)
    requires Terminated(s) && start < |s| && 2 <= base <= 36
    ensures acc as int == Clamped(neg, Number(Values(s[start..RunEnd(s, start, base)]), base))
    ensures end == if start < RunEnd(s, start, base) then RunEnd(s, start, base) else 0
  {
    var cutoff, cutlim := Cutoffs(neg, base, down);
    var i, any := start, 0;
    acc := 0;
    ghost var v := 0;
    assert Values(s[start..start]) == [];
    while IsDigit(s[i], base)
      invariant start <= i <= RunEnd(s, start, base)
      invariant v == Number(Values(s[start..i]), base)
      invariant Holds(neg, v, i - start, acc, any)
      decreases |s| - i
    {
      RunBelow(s, start, base, i);
      NumberMore(s, start, i, base);
      acc, any := Accumulate(neg, base as int64, cutoff, cutlim, DigitVal(s[i]) as int64, acc, any, v, i - start);
      v := v * base + DigitVal(s[i]);
      i := i + 1;
    }
    RunBelow(s, start, base, i);
    end := if any != 0 then i else 0;
  }

  lemma RunBelow(s: string, start: nat, base: nat, i: nat)
    requires Terminated(s) && start < |s| && start <= i <= RunEnd(s, start, base)
    ensures i < RunEnd(s, start, base) <==> IsDigit(s[i], base)
  {
  }

  lemma NumberMore(s: string, start: nat, i: nat, base: nat)
    requires start <= i < |s|
    ensures Number(Values(s[start..i + 1]), base) == Number(Values(s[start..i]), base) * base + DigitVal(s[i])
  {
    NumberOf(s[start..i], s[i], s[start..i + 1], base);
  }

  lemma NumberOf(front: string, c: char, s: string, base: nat)
    requires s == front + [c]
    ensures Number(Values(s), base) == Number(Values(front), base) * base + DigitVal(c)
  {
    ValuesNext(front, c);
    NumberNext(Values(front), DigitVal(c), base);
  }

  // ----- a number that is written and read

  function DigitChar(v: nat): (c: char)
    requires v < 36
    ensures DigitVal(c) == v
  {
    if v < 10 then (v + '0' as int) as char else (v - 10 + 'a' as int) as char
  }

  lemma Smaller(v: nat, base: nat)
    requires 2 <= base <= v
    ensures 0 < v / base < v && 0 <= v % base < base && v == v / base * base + v % base
  {
    var q := v / base;
    assert v == q * base + v % base;
    Multiple(base - 1, q + 1);
  }

  predicate AllDigits(s: string, base: nat) { forall k :: 0 <= k < |s| ==> IsDigit(s[k], base) }

  function Numeral(v: nat, base: nat): (r: string)
    requires 2 <= base <= 36
    ensures r != []
  {
    if v < base then [DigitChar(v)] else Smaller(v, base); Numeral(v / base, base) + [DigitChar(v % base)]
  }

  function Written(n: int, base: nat): string
    requires 2 <= base <= 36
  {
    if n < 0 then "-" + Numeral(-n, base) else Numeral(n, base)
  }

  lemma {:induction false} NumeralDigits(v: nat, base: nat)
    requires 2 <= base <= 36
    ensures AllDigits(Numeral(v, base), base)
  {
    if v >= base {
      Smaller(v, base);
      NumeralDigits(v / base, base);
      AppendDigit(Numeral(v / base, base), v % base, base);
    }
  }

  lemma AppendDigit(s: string, c: nat, base: nat)
    requires AllDigits(s, base) && c < base <= 36
    ensures AllDigits(s + [DigitChar(c)], base)
  {
  }

  lemma {:induction false} NumeralFirst(v: nat, base: nat)
    requires 2 <= base <= 36
    ensures Numeral(v, base)[0] == '0' ==> v == 0
  {
    if v >= base {
      Smaller(v, base);
      NumeralFirst(v / base, base);
    }
  }

  lemma {:induction false} NumeralValue(v: nat, base: nat)
    requires 2 <= base <= 36
    ensures Number(Values(Numeral(v, base)), base) == v
  {
    if v < base {
      ValuesNext([], DigitChar(v));
      NumberNext([], v, base);
      assert [] + [DigitChar(v)] == [DigitChar(v)] && [] + [v] == [v];
    } else {
      Smaller(v, base);
      NumeralValue(v / base, base);
      LastDigit(Numeral(v / base, base), v / base, v % base, base);
    }
  }

  lemma LastDigit(front: string, q: int, r: nat, base: nat)
    requires r < base <= 36 && Number(Values(front), base) == q
    ensures Number(Values(front + [DigitChar(r)]), base) == q * base + r
  {
    NumberNext(Values(front), r, base);
    ValuesNext(front, DigitChar(r));
  }

  lemma RunIs(s: string, start: nat, end: nat, base: nat)
    requires Terminated(s) && start <= end < |s| && !IsDigit(s[end], base)
    requires forall k :: start <= k < end ==> IsDigit(s[k], base)
    ensures RunEnd(s, start, base) == end
  {
  }

  /** A digit is neither white space nor a sign. */
  lemma DigitStarts(s: string, base: nat)
    requires Terminated(s) && IsDigit(s[0], base)
    ensures SkipSpace(s, 0) == 0 && !IsSign(s[0])
  {
  }

  /** Digits of a magnitude, from `start` on. */
  lemma MagnitudeBack(s: string, start: nat, v: nat, base: nat, rest: string)
    requires 2 <= base <= 36 && Terminated(rest) && !IsDigit(rest[0], base) && start <= |s|
    requires s[start..] == Numeral(v, base) + rest
    ensures Terminated(s) && start < |s| && IsDigit(s[start], base)
    ensures RunEnd(s, start, base) == start + |Numeral(v, base)|
    ensures Number(Values(s[start..RunEnd(s, start, base)]), base) == v
  {
    var t := Numeral(v, base);
    NumeralDigits(v, base);
    NumeralValue(v, base);
    assert |s| == start + |t| + |rest|;
    assert s[|s| - 1] == rest[|rest| - 1];
    forall k | start <= k < start + |t| ensures IsDigit(s[k], base) {
      assert s[k] == s[start..][k - start];
    }
    assert s[start + |t|] == s[start..][|t|] == rest[0];
    RunIs(s, start, start + |t|, base);
    assert s[start..start + |t|] == s[start..][..|t|] == t;
  }

  /** The number starts where its digits do: nothing before them is skipped, and they are no prefix. */
  lemma ReadDigits(s: string, v: nat, base: nat, rest: string)
    requires 2 <= base <= 36 && Terminated(rest) && !IsDigit(rest[0], base)
    requires base == 16 && v == 0 ==> rest[0] != 'x' && rest[0] != 'X'
    requires s == Numeral(v, base) + rest
    ensures Terminated(s) && Read(s, base) == Parts(false, base, 0, |Numeral(v, base)|)
    ensures Magnitude(s, Read(s, base)) == v
  {
    assert s[0..] == s;
    MagnitudeBack(s, 0, v, base, rest);
    DigitStarts(s, base);
    NoPrefix(s, 0, v, base, rest);
  }

  lemma ReadNegative(s: string, v: nat, base: nat, rest: string)
    requires 2 <= base <= 36 && Terminated(rest) && !IsDigit(rest[0], base) && v > 0
    requires s == "-" + Numeral(v, base) + rest
    ensures Terminated(s) && Read(s, base) == Parts(true, base, 1, 1 + |Numeral(v, base)|)
    ensures Magnitude(s, Read(s, base)) == v
  {
    assert s[1..] == Numeral(v, base) + rest;
    MagnitudeBack(s, 1, v, base, rest);
    NoPrefix(s, 1, v, base, rest);
    ReadSigned(s, base);
  }

  lemma ReadSigned(s: string, base: nat)
    requires Terminated(s) && |s| > 1 && s[0] == '-' && base > 0 && !HasPrefix(s, 1, base)
    ensures Read(s, base) == Parts(true, base, 1, RunEnd(s, 1, base))
  {
  }

  lemma NoPrefix(s: string, i: nat, v: nat, base: nat, rest: string)
    requires 2 <= base <= 36 && rest != [] && (base == 16 && v == 0 ==> rest[0] != 'x' && rest[0] != 'X')
    requires i <= |s| && s[i..] == Numeral(v, base) + rest
    ensures !HasPrefix(s, i, base)
  {
    NumeralFirst(v, base);
    var t := s[i..];
    assert s[i] == t[0] == Numeral(v, base)[0];
    if v == 0 {
      assert s[i + 1] == t[1] == rest[0];
    }
  }

  /**
    * Every 64-bit integer comes back from its numeral in every base, and the end is where the numeral ends. Only a
    * hexadecimal zero must not have an x behind it, which would be read as the start of another number.
    */
  lemma ReadsBack(n: int, base: nat, rest: string)
    requires MIN64 <= n <= MAX64 && 2 <= base <= 36
    requires Terminated(rest) && !IsDigit(rest[0], base)
    requires base == 16 && n == 0 ==> rest[0] != 'x' && rest[0] != 'X'
    ensures var s := Written(n, base) + rest;
            && Terminated(s)
            && var p := Read(s, base);
            && Clamped(p.neg, Magnitude(s, p)) == n
            && p.start < p.end == |Written(n, base)|
  {
    var s := Written(n, base) + rest;
    if n < 0 {
      ReadNegative(s, -n, base, rest);
    } else {
      ReadDigits(s, n, base, rest);
    }
  }

  // ----- every text

  const SMALL: string := "0123456789abcdefghijklmnopqrstuvwxyz"
  const LARGE: string := "0123456789ABCDEFGHIJKLMNOPQRSTUVWXYZ"

  /** c is a digit of value v, small or capital. */
  predicate Writes(c: char, v: int) { 0 <= v < 36 && (c == SMALL[v] || c == LARGE[v]) }

  lemma SmallIs(v: int)
    requires 0 <= v < 36
    ensures SMALL[v] as int == if v < 10 then 48 + v else 87 + v
    ensures LARGE[v] as int == if v < 10 then 48 + v else 55 + v
  {
  }

  /** The value of a digit, in small and in capital letters. */
  lemma DigitExact(c: char, v: int)
    requires 0 <= v < 36
    ensures DigitVal(c) == v <==> Writes(c, v)
  {
    SmallIs(v);
  }

  /** t writes the digits d of the base. */
  ghost predicate Spells(t: string, d: seq<int>, base: nat) {
    |t| == |d| && forall i :: 0 <= i < |d| ==> d[i] < base && Writes(t[i], d[i])
  }

  /** c writes no digit of the base. */
  ghost predicate NoDigit(c: char, base: nat) { forall v :: 0 <= v < base ==> !Writes(c, v) }

  /** Space, tab, line feed, vertical tab, form feed, carriage return. */
  predicate Blank(c: char) { c as int in {9, 10, 11, 12, 13, 32} }

  /** Where the parts of a text end: blanks, a sign, a prefix and digits. */
  datatype Cut = Cut(blanks: nat, sign: nat, prefix: nat, digits: nat)

  predicate HexMark(u: string) { u == "0x" || u == "0X" }

  /** The base that the text is read in, when the prefix ends at c.prefix. */
  function BaseOf(s: string, c: Cut, base: nat): nat
    requires c.prefix < |s|
  {
    if c.prefix > c.sign then 16 else if base != 0 then base else if s[c.prefix] == '0' then 8 else 10
  }

  /** The parts are what they are called, for a conversion with the given base: no blank follows the blanks, a sign
      is one if there is one, so is the prefix of a hexadecimal number where it may stand, and the digits d end
      before a character that is none. */
  ghost predicate Proper(s: string, c: Cut, base: nat, d: seq<int>) {
    && Terminated(s) && c.blanks <= c.sign <= c.prefix <= c.digits < |s|
    && (forall i :: 0 <= i < c.blanks ==> Blank(s[i])) && !Blank(s[c.blanks])
    && (if s[c.blanks] == '-' || s[c.blanks] == '+' then c.sign == c.blanks + 1 else c.sign == c.blanks)
    && (if (base == 0 || base == 16) && c.sign + 2 <= |s| && HexMark(s[c.sign..c.sign + 2])
        then c.prefix == c.sign + 2 else c.prefix == c.sign)
    && Spells(s[c.prefix..c.digits], d, BaseOf(s, c, base)) && NoDigit(s[c.digits], BaseOf(s, c, base))
  }

  lemma BlankIs(c: char)
    ensures Blank(c) <==> IsSpace(c)
  {
  }

  /** Only a character with a value writes a digit. */
  lemma NoDigitIs(c: char, base: nat)
    requires base <= 36
    ensures NoDigit(c, base) <==> !IsDigit(c, base)
  {
    forall v | 0 <= v < base ensures Writes(c, v) <==> DigitVal(c) == v { DigitExact(c, v); }
    if IsDigit(c, base) { assert Writes(c, DigitVal(c)); }
  }

  lemma SpellsIs(t: string, d: seq<int>, base: nat)
    requires base <= 36
    ensures Spells(t, d, base) <==>
              |t| == |d| && forall i :: 0 <= i < |d| ==> 0 <= d[i] < base && DigitVal(t[i]) == d[i]
  {
    forall i | 0 <= i < |d| && |t| == |d|
      ensures d[i] < base && Writes(t[i], d[i]) <==> 0 <= d[i] < base && DigitVal(t[i]) == d[i]
    {
      if 0 <= d[i] < 36 { DigitExact(t[i], d[i]); }
    }
  }

  lemma {:induction false} ValuesAre(t: string, d: seq<int>)
    requires |t| == |d| && forall i :: 0 <= i < |d| ==> DigitVal(t[i]) == d[i]
    ensures Values(t) == d
  {
    if t != [] {
      ValuesAre(t[..|t| - 1], d[..|t| - 1]);
      assert d == d[..|t| - 1] + [d[|t| - 1]];
    }
  }

  /** The first character after the blanks. */
  lemma SkipIs(s: string, n: nat)
    requires Terminated(s) && n < |s| && !IsSpace(s[n]) && forall i :: 0 <= i < n ==> IsSpace(s[i])
    ensures SkipSpace(s, 0) == n
  {
  }

  /** What Read makes of a text whose parts are known by their places. */
  lemma ReadIs(s: string, base: nat, i: nat, j: nat, hex: bool, b: nat, end: nat)
    requires Terminated(s) && i < |s| && SkipSpace(s, 0) == i && j == (if IsSign(s[i]) then i + 1 else i)
    requires HasPrefix(s, j, base) <==> hex
    requires b == if hex then 16 else if base != 0 then base else if s[j] == '0' then 8 else 10
    requires var start := if hex then j + 2 else j;
             start <= end < |s| && !IsDigit(s[end], b) && forall k :: start <= k < end ==> IsDigit(s[k], b)
    ensures Read(s, base) == Parts(s[i] == '-', b, if hex then j + 2 else j, end)
  {
    RunIs(s, if hex then j + 2 else j, end, b);
  }

  /** The number that is read: the digits with the sign, or the end of the range on that side. */
  function Reading(neg: bool, v: int): int {
    if neg then (if v > 0x8000_0000_0000_0000 then -0x8000_0000_0000_0000 else -v)
    else (if v > 0x7fff_ffff_ffff_ffff then 0x7fff_ffff_ffff_ffff else v)
  }

  lemma ProperRead(s: string, c: Cut, base: nat, d: seq<int>)
    requires Proper(s, c, base, d) && (base == 0 || 2 <= base <= 36)
    ensures Read(s, base) == Parts(s[c.blanks] == '-', BaseOf(s, c, base), c.prefix, c.digits)
  {
    var b := BaseOf(s, c, base);
    var t := s[c.prefix..c.digits];
    forall i | 0 <= i < c.blanks ensures IsSpace(s[i]) { BlankIs(s[i]); }
    BlankIs(s[c.blanks]);
    SkipIs(s, c.blanks);
    NoDigitIs(s[c.digits], b);
    SpellsIs(t, d, b);
    forall k | c.prefix <= k < c.digits ensures IsDigit(s[k], b) {
      assert s[k] == t[k - c.prefix] && DigitVal(t[k - c.prefix]) == d[k - c.prefix];
    }
    MarkIs(s, c.sign, base);
    ReadIs(s, base, c.blanks, c.sign, c.prefix > c.sign, b, c.digits);
  }

  lemma MarkIs(s: string, j: nat, base: nat)
    requires Terminated(s) && j < |s|
    ensures HasPrefix(s, j, base) <==> (base == 0 || base == 16) && j + 2 <= |s| && HexMark(s[j..j + 2])
  {
    if j + 2 <= |s| { assert s[j..j + 2] == [s[j], s[j + 1]]; }
  }

  /** Every text: the digits, in small or capital letters, behind blanks, a sign and the prefix of a hexadecimal
      number, are read as their number in the base, held to the range. */
  lemma ReadsText(s: string, c: Cut, base: nat, d: seq<int>)
    requires Proper(s, c, base, d) && (base == 0 || 2 <= base <= 36)
    ensures var p := Read(s, base);
            && p.start == c.prefix && p.end == c.digits
            && Clamped(p.neg, Magnitude(s, p)) == Reading(s[c.blanks] == '-', Number(d, BaseOf(s, c, base)))
  {
    ProperRead(s, c, base, d);
    var t := s[c.prefix..c.digits];
    SpellsIs(t, d, BaseOf(s, c, base));
    ValuesAre(t, d);
  }

  /** The parts that Read finds. */
  lemma ReadFinds(s: string, base: nat, c: Cut)
    requires Terminated(s) && c.blanks == SkipSpace(s, 0)
    requires c.sign == if IsSign(s[c.blanks]) then c.blanks + 1 else c.blanks
    requires c.prefix == Read(s, base).start && c.digits == Read(s, base).end
    ensures c.sign <= c.prefix == (if HasPrefix(s, c.sign, base) then c.sign + 2 else c.sign) <= c.digits < |s|
    ensures BaseOf(s, c, base) == Read(s, base).base
    ensures forall k :: c.prefix <= k < c.digits ==> IsDigit(s[k], BaseOf(s, c, base))
    ensures !IsDigit(s[c.digits], BaseOf(s, c, base))
  {
  }

  lemma DigitsSpell(t: string, base: nat) returns (d: seq<int>)
    requires base <= 36 && AllDigits(t, base)
    ensures Spells(t, d, base)
  {
    d := seq(|t|, k requires 0 <= k < |t| => DigitVal(t[k]));
    SpellsIs(t, d, base);
  }

  lemma BlanksEnd(s: string)
    requires Terminated(s)
    ensures !Blank(s[SkipSpace(s, 0)]) && forall i :: 0 <= i < SkipSpace(s, 0) ==> Blank(s[i])
  {
    BlankIs(s[SkipSpace(s, 0)]);
    forall i | 0 <= i < SkipSpace(s, 0) ensures Blank(s[i]) { BlankIs(s[i]); }
  }

  /** And every terminated string is such a text. */
  lemma HasText(s: string, base: nat) returns (c: Cut, d: seq<int>)
    requires Terminated(s) && (base == 0 || 2 <= base <= 36)
    ensures Proper(s, c, base, d)
  {
    var i := SkipSpace(s, 0);
    c := Cut(i, if IsSign(s[i]) then i + 1 else i, Read(s, base).start, Read(s, base).end);
    ReadFinds(s, base, c);
    BlanksEnd(s);
    MarkIs(s, c.sign, base);
    NoDigitIs(s[c.digits], BaseOf(s, c, base));
    d := DigitsSpell(s[c.prefix..c.digits], BaseOf(s, c, base));
  }
}
